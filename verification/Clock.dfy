/**
  The event clock: a list of events, each counting down a signed 32-bit counter.

  Two repairs are made to the source. An event is put in front of a list that is not empty
  without the write through the null `prev` of its head, and the walk takes the next event
  before a finished one is freed.
  */
module Clock {
  import opened Arithmetic
  import opened Word32

  datatype Kind = Countdown | OnceOff

  datatype Event = Event(callback: nat, counter: int, initial: nat, kind: Kind)

  /** The counter after an advance, before it is looked at. */
  function Lowered(e: Event, amount: nat): int {
    WrapSigned(e.counter - amount)
  }

  predicate Due(e: Event, amount: nat) {
    Lowered(e, amount) <= 0
  }

  /** What is left of one event after an advance: itself, reset if it was due, or nothing. */
  function After(e: Event, amount: nat): seq<Event> {
    if !Due(e, amount) then [e.(counter := Lowered(e, amount))]
    else if e.kind == Countdown then [e.(counter := WrapSigned(e.initial))]
    else []
  }

  function Fired(e: Event, amount: nat): seq<nat> {
    if Due(e, amount) then [e.callback] else []
  }

  function AfterAll(events: seq<Event>, amount: nat): seq<Event> {
    if events == [] then [] else After(events[0], amount) + AfterAll(events[1..], amount)
  }

  function FiredAll(events: seq<Event>, amount: nat): seq<nat> {
    if events == [] then [] else Fired(events[0], amount) + FiredAll(events[1..], amount)
  }

  class EventClock {
    var events: seq<Event>

    constructor ()
      ensures events == []
    {
      events := [];
    }

    /** `clock_add` */
    method Add(time: nat, callback: nat, kind: Kind)
      requires time < U32
      modifies this
      ensures events == [Event(callback, WrapSigned(time), time, kind)] + old(events)
    {
      events := [Event(callback, WrapSigned(time), time, kind)] + events;
    }

    /** `clock_advance`; the callbacks made, in order. */
    method Advance(amount: nat) returns (fired: seq<nat>)
      requires amount < U32
      modifies this
      ensures events == AfterAll(old(events), amount) && fired == FiredAll(old(events), amount)
    {
      fired := [];
      var i := 0;
      ghost var done, rest := [], events;
      while i < |events|
        invariant events == done + rest && i == |done|
        invariant done + AfterAll(rest, amount) == AfterAll(old(events), amount)
        invariant fired + FiredAll(rest, amount) == FiredAll(old(events), amount)
        decreases |rest|
      {
        var current := events[i];
        FirstOfAll(done, fired, rest, amount);
        var counter := WrapSigned(current.counter - amount);
        if counter <= 0 {
          if current.kind == Countdown {
            events := events[i := current.(counter := WrapSigned(current.initial))];
            i := i + 1;
          } else {
            events := events[..i] + events[i + 1..];
          }
          fired := fired + [current.callback];
        } else {
          events := events[i := current.(counter := counter)];
          i := i + 1;
        }
        done, rest := done + After(current, amount), rest[1..];
      }
    }
  }

  lemma FirstOfAll(done: seq<Event>, fired: seq<nat>, rest: seq<Event>, amount: nat)
    requires rest != []
    ensures done + After(rest[0], amount) + AfterAll(rest[1..], amount) == done + AfterAll(rest, amount)
    ensures fired + Fired(rest[0], amount) + FiredAll(rest[1..], amount) == fired + FiredAll(rest, amount)
    ensures fired + [] == fired
  {
    hide After, Fired;
    Assoc(done, After(rest[0], amount), AfterAll(rest[1..], amount));
    Assoc(fired, Fired(rest[0], amount), FiredAll(rest[1..], amount));
  }

  lemma Assoc<T>(a: seq<T>, b: seq<T>, c: seq<T>)
    ensures a + b + c == a + (b + c)
  {
  }

  // ---------------------------------------------------------------- traces

  function Run(events: seq<Event>, amounts: seq<nat>): seq<Event> {
    if amounts == [] then events else AfterAll(Run(events, amounts[..|amounts| - 1]), amounts[|amounts| - 1])
  }

  /** The callbacks made by the last advance of a trace. */
  function LastFired(events: seq<Event>, amounts: seq<nat>): seq<nat>
    requires amounts != []
  {
    FiredAll(Run(events, amounts[..|amounts| - 1]), amounts[|amounts| - 1])
  }

  lemma {:induction false} AllConcat(a: seq<Event>, b: seq<Event>, amount: nat)
    ensures AfterAll(a + b, amount) == AfterAll(a, amount) + AfterAll(b, amount)
    ensures FiredAll(a + b, amount) == FiredAll(a, amount) + FiredAll(b, amount)
  {
    if a == [] {
      assert a + b == b;
    } else {
      hide After, Fired;
      assert (a + b)[0] == a[0] && (a + b)[1..] == a[1..] + b;
      AllConcat(a[1..], b, amount);
      Assoc(After(a[0], amount), AfterAll(a[1..], amount), AfterAll(b, amount));
      Assoc(Fired(a[0], amount), FiredAll(a[1..], amount), FiredAll(b, amount));
    }
  }

  /** Events do not disturb each other: what becomes of a list is what becomes of its parts, in order. */
  lemma {:induction false} RunConcat(a: seq<Event>, b: seq<Event>, amounts: seq<nat>)
    ensures Run(a + b, amounts) == Run(a, amounts) + Run(b, amounts)
    ensures amounts != [] ==> LastFired(a + b, amounts) == LastFired(a, amounts) + LastFired(b, amounts)
  {
    if amounts != [] {
      var front := amounts[..|amounts| - 1];
      RunConcat(a, b, front);
      AllConcat(Run(a, front), Run(b, front), amounts[|amounts| - 1]);
    }
  }

  lemma AllOfOne(e: Event, amount: nat)
    ensures AfterAll([e], amount) == After(e, amount) && FiredAll([e], amount) == Fired(e, amount)
  {
    assert [e][1..] == [];
  }

  // ---------------------------------------------------------------- countdowns

  const HALF := 0x8000_0000

  /**
    Amounts between a least one and half the range of the counter. The kernel's timer advances the
    clock by the same amount at every tick, so that amount can be taken for the least one.
    */
  predicate Amounts(amounts: seq<nat>, least: nat) {
    forall i :: 0 <= i < |amounts| ==> least <= amounts[i] <= HALF
  }

  function Started(callback: nat, time: nat, kind: Kind): Event {
    Event(callback, WrapSigned(time), time, kind)
  }

  /** The amount since the last reset of a countdown of `time`, told by the amounts alone. */
  function Since(time: nat, amounts: seq<nat>): nat {
    if amounts == [] then 0
    else
      var s := Since(time, amounts[..|amounts| - 1]) + amounts[|amounts| - 1];
      if s >= time then 0 else s
  }

  predicate Reaches(time: nat, amounts: seq<nat>)
    requires amounts != []
  {
    Since(time, amounts[..|amounts| - 1]) + amounts[|amounts| - 1] >= time
  }

  /** Storing a difference of words in between makes no difference. */
  lemma WrapTwice(x: int, amount: nat)
    ensures WrapSigned(WrapSigned(x) - amount) == WrapSigned(x - amount)
  {
  }

  /** An event with `left` to go, stored as a signed word. */
  function Counting(callback: nat, time: nat, left: int, kind: Kind): Event {
    Started(callback, time, kind).(counter := WrapSigned(left))
  }

  lemma JustStarted(callback: nat, time: nat, kind: Kind)
    ensures Started(callback, time, kind) == Counting(callback, time, time, kind)
  {
  }

  /**
    An advance makes an event due exactly when it takes all that is left, provided that what is
    left after it fits the counter.
    */
  lemma DueWhenReached(callback: nat, time: nat, left: nat, amount: nat, kind: Kind)
    requires left < HALF + amount && amount <= HALF
    ensures Due(Counting(callback, time, left, kind), amount) <==> amount >= left
    ensures Lowered(Counting(callback, time, left, kind), amount) == left - amount
  {
    WrapTwice(left, amount);
  }

  /** For a counter that has not wrapped, an advance is seen for what it is exactly up to this amount. */
  lemma AdvanceSeenExactly(callback: nat, time: nat, left: nat, amount: nat, kind: Kind)
    requires 1 <= left < HALF && amount < U32
    ensures (Due(Counting(callback, time, left, kind), amount) <==> amount >= left) <==> amount <= left + HALF
  {
  }

  lemma CountdownStep(callback: nat, time: nat, since: nat, amount: nat)
    requires since < time < HALF + amount && amount <= HALF
    ensures var counting := [Counting(callback, time, time - since, Countdown)];
            && AfterAll(counting, amount)
            == [Counting(callback, time, if since + amount >= time then time else time - since - amount, Countdown)]
            && FiredAll(counting, amount) == if since + amount >= time then [callback] else []
  {
    DueWhenReached(callback, time, time - since, amount, Countdown);
    AllOfOne(Counting(callback, time, time - since, Countdown), amount);
    hide WrapSigned;
  }

  /** A countdown fires at an advance exactly when the amount since its last reset reaches its time. */
  lemma {:induction false} CountdownLaw(callback: nat, time: nat, amounts: seq<nat>, least: nat)
    requires 1 <= time < HALF + least && Amounts(amounts, least)
    ensures Since(time, amounts) < time
    ensures Run([Started(callback, time, Countdown)], amounts)
         == [Counting(callback, time, time - Since(time, amounts), Countdown)]
    ensures amounts != [] ==>
      LastFired([Started(callback, time, Countdown)], amounts) == if Reaches(time, amounts) then [callback] else []
  {
    hide AfterAll, FiredAll, Started, Counting;
    if amounts == [] {
      JustStarted(callback, time, Countdown);
    } else {
      var front, last := amounts[..|amounts| - 1], amounts[|amounts| - 1];
      CountdownLaw(callback, time, front, least);
      CountdownStep(callback, time, Since(time, front), last);
    }
  }

  /**
    The law holds over all traces exactly for the times below 2^31 plus the least amount that the
    clock is advanced by. Where it can be advanced by nothing, that is below 2^31; where it always
    moves, 2^31 is in.
    */
  lemma CountdownLawExactly(callback: nat, time: nat, least: nat)
    requires 1 <= time < U32 && least <= HALF
    ensures (forall amounts: seq<nat> :: amounts != [] && Amounts(amounts, least) ==>
               LastFired([Started(callback, time, Countdown)], amounts)
               == if Reaches(time, amounts) then [callback] else [])
       <==> time < HALF + least
  {
    hide LastFired, Reaches, Started;
    if time < HALF + least {
      forall amounts: seq<nat> | amounts != [] && Amounts(amounts, least)
        ensures LastFired([Started(callback, time, Countdown)], amounts)
             == if Reaches(time, amounts) then [callback] else []
      {
        CountdownLaw(callback, time, amounts, least);
      }
    } else {
      LongEventFiresEarly(callback, time, least, Countdown);
    }
  }

  /** An event of a longer time is due at the first advance already. */
  lemma LongEventFiresEarly(callback: nat, time: nat, amount: nat, kind: Kind)
    requires HALF + amount <= time < U32 && amount <= HALF
    ensures Amounts([amount], amount) && LastFired([Started(callback, time, kind)], [amount]) == [callback]
    ensures !Reaches(time, [amount]) && Sum([amount]) < time
  {
    var none: seq<nat> := [];
    assert [amount][..0] == none;
    AllOfOne(Started(callback, time, kind), amount);
  }

  function Steady(amount: nat, n: nat): seq<nat> {
    seq(n, _ => amount)
  }

  /** All callbacks made over a trace. */
  function Made(events: seq<Event>, amounts: seq<nat>): seq<nat> {
    if amounts == [] then [] else Made(events, amounts[..|amounts| - 1]) + LastFired(events, amounts)
  }

  /** How often the amounts reach a time. */
  function Fires(time: nat, amounts: seq<nat>): nat {
    if amounts == [] then 0
    else Fires(time, amounts[..|amounts| - 1]) + if Reaches(time, amounts) then 1 else 0
  }

  /** The advances from one firing to the next: the time over the amount, rounded up. */
  function Period(time: nat, amount: nat): nat
    requires amount > 0
  {
    (time + amount - 1) / amount
  }

  lemma PeriodBounds(time: nat, amount: nat)
    requires amount > 0 && time > 0
    ensures var k := Period(time, amount); k > 0 && (k - 1) * amount < time <= k * amount
  {
    var k, x := Period(time, amount), time + amount - 1;
    assert k * amount <= x < k * amount + amount;
    assert (k - 1) * amount == k * amount - amount;
  }

  /** A countdown calls back as often as the amounts reach its time. */
  lemma {:induction false} MadeCounts(callback: nat, time: nat, amounts: seq<nat>, least: nat)
    requires 1 <= time < HALF + least && Amounts(amounts, least)
    ensures |Made([Started(callback, time, Countdown)], amounts)| == Fires(time, amounts)
  {
    hide LastFired, Reaches, Started;
    if amounts != [] {
      MadeCounts(callback, time, amounts[..|amounts| - 1], least);
      CountdownLaw(callback, time, amounts, least);
    }
  }

  /** A constant amount reaches the time every Period(time, amount) advances. */
  lemma {:induction false} SteadyFires(time: nat, amount: nat, n: nat)
    requires time > 0 && amount > 0
    ensures Period(time, amount) > 0
    ensures Since(time, Steady(amount, n)) == (n % Period(time, amount)) * amount
    ensures Fires(time, Steady(amount, n)) == n / Period(time, amount)
  {
    PeriodBounds(time, amount);
    hide Period;
    var k := Period(time, amount);
    if n > 0 {
      var s := Steady(amount, n);
      assert s[..n - 1] == Steady(amount, n - 1);
      SteadyFires(time, amount, n - 1);
      NextMultiple(n - 1, k);
      StepReaches(time, amount, k, (n - 1) % k);
    }
  }

  /**
    With a constant amount, a countdown calls back once for every Period(time, amount) advances,
    however many are made, exactly for the times below 2^31 plus the amount.
    */
  lemma SteadyCallbacksExactly(callback: nat, time: nat, amount: nat)
    requires 1 <= time < U32 && 1 <= amount <= HALF
    ensures Period(time, amount) > 0
    ensures (forall n: nat :: |Made([Started(callback, time, Countdown)], Steady(amount, n))| == n / Period(time, amount))
       <==> time < HALF + amount
  {
    PeriodBounds(time, amount);
    hide Period, LastFired, Started, Reaches;
    if time < HALF + amount {
      forall n: nat
        ensures |Made([Started(callback, time, Countdown)], Steady(amount, n))| == n / Period(time, amount)
      {
        MadeCounts(callback, time, Steady(amount, n), amount);
        SteadyFires(time, amount, n);
      }
    } else {
      var e := [Started(callback, time, Countdown)];
      LongEventFiresEarly(callback, time, amount, Countdown);
      assert Steady(amount, 1) == [amount] && [amount][..0] == [];
      assert Made(e, []) == [];
      assert |Made(e, Steady(amount, 1))| == 1;
      assert Period(time, amount) > 1;
    }
  }

  lemma StepReaches(time: nat, amount: nat, k: nat, r: nat)
    requires r < k && (k - 1) * amount < time <= k * amount
    ensures r * amount + amount >= time <==> r + 1 == k
    ensures (r + 1) * amount == r * amount + amount
  {
    if r + 1 < k {
      MultipleOrder(r + 1, k - 1, amount);
    }
  }

  lemma NextMultiple(n: nat, k: nat)
    requires k > 0
    ensures (n + 1) % k == if n % k + 1 == k then 0 else n % k + 1
    ensures (n + 1) / k == if n % k + 1 == k then n / k + 1 else n / k
  {
    var q, r := n / k, n % k;
    assert n == q * k + r;
    if r + 1 == k {
      assert n + 1 == (q + 1) * k;
      Quotient(n + 1, k, q + 1, 0);
    } else {
      Quotient(n + 1, k, q, r + 1);
    }
  }

  lemma Quotient(n: nat, k: nat, q: nat, r: nat)
    requires k > 0 && n == q * k + r && r < k
    ensures n / k == q && n % k == r
  {
    var p := n / k;
    assert n == p * k + n % k;
    assert (p + 1) * k == p * k + k && (q + 1) * k == q * k + k;
    if p < q {
      MultipleOrder(p + 1, q, k);
    } else if p > q {
      MultipleOrder(q + 1, p, k);
    }
  }

  // ---------------------------------------------------------------- once-off events

  function Sum(amounts: seq<nat>): nat {
    if amounts == [] then 0 else Sum(amounts[..|amounts| - 1]) + amounts[|amounts| - 1]
  }

  lemma OnceOffStep(callback: nat, time: nat, sum: nat, amount: nat)
    requires sum < time < HALF + amount && amount <= HALF
    ensures var counting := [Counting(callback, time, time - sum, OnceOff)];
            && AfterAll(counting, amount)
            == (if sum + amount >= time then [] else [Counting(callback, time, time - sum - amount, OnceOff)])
            && FiredAll(counting, amount) == if sum + amount >= time then [callback] else []
  {
    DueWhenReached(callback, time, time - sum, amount, OnceOff);
    AllOfOne(Counting(callback, time, time - sum, OnceOff), amount);
    hide WrapSigned;
  }

  lemma NothingHappens(amount: nat)
    ensures AfterAll([], amount) == [] && FiredAll([], amount) == []
  {
  }

  /** A once-off event fires at the advance that brings the total to its time, is unlinked, and never fires again. */
  lemma {:induction false} OnceOffLaw(callback: nat, time: nat, amounts: seq<nat>, least: nat)
    requires 1 <= time < HALF + least && Amounts(amounts, least)
    ensures Run([Started(callback, time, OnceOff)], amounts)
         == if Sum(amounts) < time then [Counting(callback, time, time - Sum(amounts), OnceOff)] else []
    ensures amounts != [] ==>
      LastFired([Started(callback, time, OnceOff)], amounts)
      == if Sum(amounts[..|amounts| - 1]) < time <= Sum(amounts) then [callback] else []
  {
    NothingHappens(if amounts == [] then 0 else amounts[|amounts| - 1]);
    hide AfterAll, FiredAll, Started, Counting;
    if amounts == [] {
      JustStarted(callback, time, OnceOff);
    } else {
      var front, last := amounts[..|amounts| - 1], amounts[|amounts| - 1];
      OnceOffLaw(callback, time, front, least);
      if Sum(front) < time {
        OnceOffStep(callback, time, Sum(front), last);
      }
    }
  }

  /** A once-off event calls back once as soon as the total reaches its time, and not before. */
  lemma {:induction false} OnceOffMade(callback: nat, time: nat, amounts: seq<nat>, least: nat)
    requires 1 <= time < HALF + least && Amounts(amounts, least)
    ensures Made([Started(callback, time, OnceOff)], amounts) == if Sum(amounts) >= time then [callback] else []
  {
    hide LastFired, Started;
    if amounts != [] {
      OnceOffMade(callback, time, amounts[..|amounts| - 1], least);
      OnceOffLaw(callback, time, amounts, least);
    }
  }

  /** That holds over all traces exactly for the times below 2^31 plus the least amount. */
  lemma OnceOffExactly(callback: nat, time: nat, least: nat)
    requires 1 <= time < U32 && least <= HALF
    ensures (forall amounts: seq<nat> :: Amounts(amounts, least) ==>
               Made([Started(callback, time, OnceOff)], amounts) == if Sum(amounts) >= time then [callback] else [])
       <==> time < HALF + least
  {
    hide LastFired, Started, Sum;
    if time < HALF + least {
      forall amounts: seq<nat> | Amounts(amounts, least)
        ensures Made([Started(callback, time, OnceOff)], amounts) == if Sum(amounts) >= time then [callback] else []
      {
        OnceOffMade(callback, time, amounts, least);
      }
    } else {
      var e := [Started(callback, time, OnceOff)];
      LongEventFiresEarly(callback, time, least, OnceOff);
      assert [least][..0] == [] && Made(e, []) == [];
      assert Made(e, [least]) == [callback];
    }
  }

  /** In any list, a once-off event that is done is gone, with all others and their order as they would be. */
  lemma OnceOffLeavesOthers(before: seq<Event>, callback: nat, time: nat, behind: seq<Event>, amounts: seq<nat>, least: nat)
    requires 1 <= time < HALF + least && Amounts(amounts, least) && Sum(amounts) >= time
    ensures Run(before + [Started(callback, time, OnceOff)] + behind, amounts) == Run(before, amounts) + Run(behind, amounts)
  {
    hide Started, AfterAll, FiredAll;
    var e := [Started(callback, time, OnceOff)];
    RunConcat(before + e, behind, amounts);
    RunConcat(before, e, amounts);
    OnceOffLaw(callback, time, amounts, least);
  }
}
