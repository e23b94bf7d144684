/** The H^r cache shared by encrypting threads: two locked sections with unlocked work between them. */
module HrCache {
  import opened Arith
  import opened NumberTheory
  import opened BigNum
  import OuCipher
  import OuScheme

  /** Where a thread is inside a call. */
  datatype Local =
    | Idle
    | MustReset                       // read the cache, may not use it
    | MayExtend(r: nat, hr: int)      // snapshot of the cache
    | Ready(r: nat, hr: int)          // computed, not yet published

  datatype Event =
    | Read(thread: nat)               // first locked section
    | Draw(thread: nat, x: nat)       // the random number, and the unlocked arithmetic
    | Publish(thread: nat)            // second locked section, and the return

  /** Constants of one encryptor. */
  datatype Setup = Setup(n: int, h: int, ms: MSpace)
  {
    ghost predicate Valid()
    {
      n > 0 && ms.Valid() && ms.m == n
    }

    function RandomBits(): nat
    {
      if BitCount(n) >= 2560 then 128 else if BitCount(n) >= 1536 then 110 else 80
    }

    /** The cached exponent is too small, or too close to n. */
    predicate Reset(r: nat)
    {
      BitCount(r) < 128 || BitCount(r) >= BitCount(n) - 1
    }

    /** The number drawn fits the bits asked for. */
    predicate Drawn(l: Local, x: nat)
    {
      (l.MustReset? ==> x < Pow(2, 128)) && (l.MayExtend? ==> x < Pow(2, RandomBits()))
    }
  }

  datatype State = State(cacheR: nat, cacheHr: int, threads: map<nat, Local>, returned: seq<(nat, int)>)
  {
    function At(t: nat): Local
    {
      if t in threads then threads[t] else Idle
    }
  }

  function Initial(): State
  {
    State(0, 0, map[], [])
  }

  /** One step of one thread; a step its thread is not ready for changes nothing. */
  function Step(c: Setup, s: State, e: Event): State
    requires c.Valid()
  {
    match e
    case Read(t) =>
      if !s.At(t).Idle? then s
      else s.(threads := s.threads[t := if c.Reset(s.cacheR) then MustReset else MayExtend(s.cacheR, s.cacheHr)])
    case Draw(t, x) =>
      var l := s.At(t);
      if !c.Drawn(l, x) then s
      else if l.MustReset? then s.(threads := s.threads[t := Ready(x, c.ms.PowMod(c.h, x))])
      else if l.MayExtend? then
        s.(threads := s.threads[t := Ready(x + l.r, c.ms.MulMod(l.hr, c.ms.PowMod(c.h, x)))])
      else s
    case Publish(t) =>
      var l := s.At(t);
      if !l.Ready? then s
      else State(l.r, l.hr, s.threads[t := Idle], s.returned + [(l.r, l.hr)])
  }

  function Run(c: Setup, events: seq<Event>): State
    requires c.Valid()
  {
    if events == [] then Initial() else Step(c, Run(c, events[..|events| - 1]), events[|events| - 1])
  }

  // ------------------------------------------------------------------ the invariant

  ghost predicate IsPower(c: Setup, r: nat, hr: int)
    requires c.Valid()
  {
    hr == c.ms.PowMod(c.h, r)
  }

  ghost predicate LocalOk(c: Setup, l: Local)
    requires c.Valid()
  {
    && (l.MayExtend? ==> IsPower(c, l.r, l.hr) && !c.Reset(l.r))
    && (l.Ready? ==> IsPower(c, l.r, l.hr) && (BitCount(c.n) >= 130 ==> l.r < c.n))
  }

  ghost predicate Inv(c: Setup, s: State)
    requires c.Valid()
  {
    && (BitCount(s.cacheR) >= 128 ==> IsPower(c, s.cacheR, s.cacheHr))
    && (BitCount(c.n) >= 130 ==> s.cacheR < c.n)
    && (forall t: nat :: LocalOk(c, s.At(t)))
    && (forall i :: 0 <= i < |s.returned| ==> ResultOk(c, s.returned[i]))
  }

  ghost predicate ResultOk(c: Setup, p: (nat, int))
    requires c.Valid()
  {
    IsPower(c, p.0, p.1) && (BitCount(c.n) >= 130 ==> p.0 < c.n)
  }

  /** Stored powers multiply exactly. */
  lemma PowersMultiply(c: Setup, a: nat, b: nat)
    requires c.Valid()
    ensures c.ms.MulMod(c.ms.PowMod(c.h, a), c.ms.PowMod(c.h, b)) == c.ms.PowMod(c.h, a + b)
  {
    hide Cong, Pow;
    var ms := c.ms;
    ms.StoresMul(ms.PowMod(c.h, a), Pow(c.h, a), ms.PowMod(c.h, b), Pow(c.h, b));
    PowAdd(c.h, a, b);
    StoredUnique(ms, ms.MulMod(ms.PowMod(c.h, a), ms.PowMod(c.h, b)), ms.PowMod(c.h, a + b), Pow(c.h, a + b));
  }

  lemma StoredUnique(ms: MSpace, a: int, b: int, x: int)
    requires ms.Valid() && ms.Stores(a, x) && ms.Stores(b, x)
    ensures a == b
  {
    hide Cong;
    CongSym(b, x * ms.r, ms.m);
    CongTrans(a, x * ms.r, b, ms.m);
    CongClose(a, b, ms.m);
  }

  /** An extended exponent is still below n. */
  lemma ExtendedBelow(c: Setup, r: nat, x: nat)
    requires c.n > 0 && !c.Reset(r) && x < Pow(2, c.RandomBits())
    ensures x + r < c.n
  {
    hide Pow, BitCount;
    var b := BitCount(c.n);
    BitCountLow(c.n);
    if r > 0 { BitCountLow(r); }
    PowMonotone(2, BitCount(r), b - 2);
    PowMonotone(2, c.RandomBits(), b - 2);
    PowHalf(b - 1);
  }

  /** A reset exponent is below n once n has 130 bits (129 are enough). */
  lemma ResetBelow(c: Setup, x: nat)
    requires c.n > 0 && BitCount(c.n) >= 130 && x < Pow(2, 128)
    ensures x < c.n
  {
    hide Pow, BitCount;
    BitCountLow(c.n);
    PowMonotone(2, 128, BitCount(c.n) - 1);
  }

  lemma InitialInv(c: Setup)
    requires c.Valid()
    ensures Inv(c, Initial())
  {
  }

  lemma DrawOk(c: Setup, l: Local, x: nat)
    requires c.Valid() && LocalOk(c, l) && c.Drawn(l, x)
    ensures l.MustReset? ==> LocalOk(c, Ready(x, c.ms.PowMod(c.h, x)))
    ensures l.MayExtend? ==> LocalOk(c, Ready(x + l.r, c.ms.MulMod(l.hr, c.ms.PowMod(c.h, x))))
  {
    hide Pow, BitCount, MSpace.PowMod, MSpace.MulMod;
    if l.MustReset? && BitCount(c.n) >= 130 { ResetBelow(c, x); }
    if l.MayExtend? {
      PowersMultiply(c, l.r, x);
      ExtendedBelow(c, l.r, x);
    }
  }

  lemma StepInv(c: Setup, s: State, e: Event)
    requires c.Valid() && Inv(c, s)
    ensures Inv(c, Step(c, s, e))
  {
    hide IsPower, Pow, BitCount, MSpace.PowMod, MSpace.MulMod, Setup.Drawn;
    assert LocalOk(c, s.At(e.thread));
    assert LocalOk(c, Idle) && LocalOk(c, MustReset);
    if e.Draw? && c.Drawn(s.At(e.thread), e.x) { DrawOk(c, s.At(e.thread), e.x); }
    var z := Step(c, s, e);
    forall t: nat
      ensures LocalOk(c, z.At(t))
    {
      assert t != e.thread ==> z.At(t) == s.At(t);
    }
  }

  /** Every run of any number of threads, in any interleaving. */
  lemma {:induction false} RunInv(c: Setup, events: seq<Event>)
    requires c.Valid()
    ensures Inv(c, Run(c, events))
  {
    hide Inv, Step;
    if events == [] {
      InitialInv(c);
    } else {
      RunInv(c, events[..|events| - 1]);
      StepInv(c, Run(c, events[..|events| - 1]), events[|events| - 1]);
    }
  }

  /** Every value any call ever returned is a stored power of H, and its exponent is below n when n has at
      least 130 bits. */
  lemma ReturnsPowers(c: Setup, events: seq<Event>, i: nat)
    requires c.Valid() && i < |Run(c, events).returned|
    ensures var (r, hr) := Run(c, events).returned[i]; hr == c.ms.PowMod(c.h, r) && (BitCount(c.n) >= 130 ==> r < c.n)
  {
    RunInv(c, events);
  }

  /** So every call's value is an encryption of zero for the scheme. */
  lemma ReturnsZeroEncryptions(pk: OuScheme.PublicKey, k: OuCipher.Params, events: seq<Event>, i: nat)
    requires pk.Valid(k)
    requires Setup(pk.n, pk.capitalH, pk.mSpace).Valid() && i < |Run(Setup(pk.n, pk.capitalH, pk.mSpace), events).returned|
    ensures pk.Encrypts(Run(Setup(pk.n, pk.capitalH, pk.mSpace), events).returned[i].1, 0, k)
  {
    hide OuScheme.PublicKey.Encrypts, OuCipher.Holds;
    var c := Setup(pk.n, pk.capitalH, pk.mSpace);
    ReturnsPowers(c, events, i);
    pk.GetHrOk(Run(c, events).returned[i].0, k);
  }

  // ------------------------------------------------------------------ where returned exponents come from

  /** The numbers drawn so far for the cached pair, for each thread's pair, and for every returned pair. */
  datatype Trails = Trails(cache: seq<nat>, threads: map<nat, seq<nat>>, returned: seq<seq<nat>>)
  {
    function At(t: nat): seq<nat>
    {
      if t in threads then threads[t] else []
    }
  }

  /** A read copies the cache's trail, or forgets it when it resets; a draw extends the thread's own trail; publishing
      hands it to the cache. */
  function NextTrails(c: Setup, s: State, tr: Trails, e: Event): Trails
  {
    match e
    case Read(t) =>
      if !s.At(t).Idle? then tr else tr.(threads := tr.threads[t := if c.Reset(s.cacheR) then [] else tr.cache])
    case Draw(t, x) =>
      if c.Drawn(s.At(t), x) && (s.At(t).MustReset? || s.At(t).MayExtend?)
      then tr.(threads := tr.threads[t := tr.At(t) + [x]])
      else tr
    case Publish(t) =>
      if !s.At(t).Ready? then tr else Trails(tr.At(t), tr.threads, tr.returned + [tr.At(t)])
  }

  function RunTrails(c: Setup, events: seq<Event>): Trails
    requires c.Valid()
  {
    if events == [] then Trails([], map[], [])
    else
      var rest := events[..|events| - 1];
      NextTrails(c, Run(c, rest), RunTrails(c, rest), events[|events| - 1])
  }

  function Total(s: seq<nat>): nat
  {
    if s == [] then 0 else Total(s[..|s| - 1]) + s[|s| - 1]
  }

  lemma TotalNext(s: seq<nat>, x: nat)
    ensures Total(s + [x]) == Total(s) + x
  {
    assert (s + [x])[..|s|] == s;
  }

  ghost predicate Traced(s: State, tr: Trails)
  {
    && s.cacheR == Total(tr.cache) && |s.returned| == |tr.returned|
    && (forall i :: 0 <= i < |s.returned| ==> s.returned[i].0 == Total(tr.returned[i]) && |tr.returned[i]| > 0)
    && (forall t: nat :: s.At(t).MustReset? ==> tr.At(t) == [])
    && (forall t: nat :: s.At(t).MayExtend? ==> s.At(t).r == Total(tr.At(t)))
    && (forall t: nat :: s.At(t).Ready? ==> s.At(t).r == Total(tr.At(t)) && |tr.At(t)| > 0)
  }

  lemma StepTraced(c: Setup, s: State, tr: Trails, e: Event)
    requires c.Valid() && Traced(s, tr)
    ensures Traced(Step(c, s, e), NextTrails(c, s, tr, e))
  {
    hide Pow, BitCount, MSpace.PowMod, MSpace.MulMod, Setup.Drawn, Setup.Reset, Total;
    assert Total([]) == 0 by { TotalEmpty(); }
    if e.Draw? { TotalNext(tr.At(e.thread), e.x); }
    var z, w := Step(c, s, e), NextTrails(c, s, tr, e);
    assert forall t: nat :: t != e.thread ==> z.At(t) == s.At(t) && w.At(t) == tr.At(t);
  }

  lemma TotalEmpty()
    ensures Total([]) == 0
  {
  }

  /** Every returned exponent is the sum of the numbers drawn along its chain of snapshots back to the last reset, its own
      call's number included. */
  lemma {:induction false} ReturnsSums(c: Setup, events: seq<Event>)
    requires c.Valid()
    ensures Traced(Run(c, events), RunTrails(c, events))
    ensures |Run(c, events).returned| == |RunTrails(c, events).returned|
    ensures forall i :: 0 <= i < |Run(c, events).returned| ==>
              Run(c, events).returned[i].0 == Total(RunTrails(c, events).returned[i])
              && |RunTrails(c, events).returned[i]| > 0
  {
    hide Step, NextTrails, Total;
    if events == [] {
      TotalEmpty();
    } else {
      var rest := events[..|events| - 1];
      ReturnsSums(c, rest);
      StepTraced(c, Run(c, rest), RunTrails(c, rest), events[|events| - 1]);
    }
  }

  /** One undisturbed call: it returns H^x after a reset and the cached power times H^x otherwise, and caches the same. */
  lemma OneCall(c: Setup, s: State, t: nat, x: nat) returns (r: nat)
    requires c.Valid() && Inv(c, s) && s.At(t).Idle?
    requires c.Drawn(if c.Reset(s.cacheR) then MustReset else MayExtend(s.cacheR, s.cacheHr), x)
    ensures r == if BitCount(s.cacheR) < 128 || BitCount(s.cacheR) >= BitCount(c.n) - 1 then x else s.cacheR + x
    ensures var z := Step(c, Step(c, Step(c, s, Event.Read(t)), Event.Draw(t, x)), Event.Publish(t));
            && z.returned == s.returned + [(r, c.ms.PowMod(c.h, r))]
            && z.cacheR == r && z.cacheHr == c.ms.PowMod(c.h, r) && z.At(t) == Idle
  {
    hide Pow, BitCount, MSpace.PowMod, MSpace.MulMod;
    if c.Reset(s.cacheR) {
      r := x;
    } else {
      r := s.cacheR + x;
      PowersMultiply(c, s.cacheR, x);
    }
  }

  // ------------------------------------------------------------------ resets

  /** The pair 0, 0 the cache starts with is never the base of an extension: whoever extends holds an
      exponent of at least 128 bits with its power. */
  lemma NeverExtendsInitial(c: Setup, events: seq<Event>, t: nat)
    requires c.Valid() && Run(c, events).At(t).MayExtend?
    ensures var l := Run(c, events).At(t); BitCount(l.r) >= 128 && l.r > 0 && l.hr == c.ms.PowMod(c.h, l.r)
  {
    RunInv(c, events);
    assert LocalOk(c, Run(c, events).At(t));
    assert BitCount(0) == 0;
  }

  /** For n of at most 129 bits the cache is never extended: every read resets. */
  lemma SmallModulusResets(c: Setup, r: nat)
    requires BitCount(c.n) <= 129
    ensures c.Reset(r)
  {
  }

  // ------------------------------------------------------------------ the encryptor object

  /** The object with its mutable fields; each method is one step of one thread. */
  class Encryptor {
    const setup: Setup
    var cacheR: nat
    var cacheHr: int
    var threads: map<nat, Local>
    ghost var returned: seq<(nat, int)>

    constructor (setup: Setup)
      requires setup.Valid()
      ensures this.setup == setup && Now() == Initial()
    {
      this.setup := setup;
      cacheR, cacheHr, threads, returned := 0, 0, map[], [];
    }

    ghost function Now(): State
      reads this
    {
      State(cacheR, cacheHr, threads, returned)
    }

    /** First locked section. */
    method Read(t: nat)
      requires setup.Valid()
      modifies this
      ensures Now() == Step(setup, old(Now()), Event.Read(t))
    {
      if t in threads && !threads[t].Idle? { return; }
      var bits := BitCount(cacheR);
      var reset := bits < 128 || bits >= BitCount(setup.n) - 1;
      threads := threads[t := if reset then MustReset else MayExtend(cacheR, cacheHr)];
    }

    /** Unlocked: draw a number, compute the new pair from the snapshot only. */
    method Draw(t: nat, x: nat)
      requires setup.Valid()
      modifies this
      ensures Now() == Step(setup, old(Now()), Event.Draw(t, x))
    {
      hide MSpace.PowMod, MSpace.MulMod;
      if t !in threads || !setup.Drawn(threads[t], x) { return; }
      match threads[t] {
        case MustReset =>
          threads := threads[t := Ready(x, setup.ms.PowMod(setup.h, x))];
        case MayExtend(r, hr) =>
          var deltaHr := setup.ms.PowMod(setup.h, x);
          var newHr := setup.ms.MulMod(hr, deltaHr);
          threads := threads[t := Ready(x + r, newHr)];
        case _ =>
      }
    }

    /** Second locked section: both fields together. */
    method Publish(t: nat) returns (hr: int)
      requires setup.Valid()
      modifies this
      ensures Now() == Step(setup, old(Now()), Event.Publish(t))
      ensures t in old(threads) && old(threads)[t].Ready? ==> |returned| > 0 && returned[|returned| - 1].1 == hr
    {
      hr := 0;
      if t !in threads || !threads[t].Ready? { return; }
      var l := threads[t];
      cacheR := l.r;
      cacheHr := l.hr;
      threads := threads[t := Idle];
      hr := l.hr;
      returned := returned + [(l.r, l.hr)];
    }

    /** Any schedule of steps. */
    method Execute(events: seq<Event>)
      requires setup.Valid() && Now() == Initial()
      modifies this
      ensures Now() == Run(setup, events) && Inv(setup, Now())
    {
      hide Step, Inv;
      for i := 0 to |events|
        invariant Now() == Run(setup, events[..i])
      {
        assert events[..i + 1][..i] == events[..i];
        match events[i] {
          case Read(t) => Read(t);
          case Draw(t, x) => Draw(t, x);
          case Publish(t) => var hr := Publish(t);
        }
      }
      assert events[..|events|] == events;
      RunInv(setup, events);
    }
  }
}
