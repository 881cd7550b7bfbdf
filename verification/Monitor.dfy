/** The load monitor: periodic checks that dump all task stacks, at most once in three seconds. */
module Monitor {
  import opened Words

  const MSEC := 1_000_000
  /** The least distance between dumps, in nanoseconds. */
  const QUIET := 3_000 * MSEC

  /** One timer expiry: the raw one-minute load, and the clock at the test and at the dump. */
  datatype Check = Check(avenrun: nat, now: nat, after: nat)

  /** A dump: when its check read the clock, and the time it recorded. */
  datatype Dump = Dump(now: nat, at: nat)

  /** LOAD_INT, kept in an `int`. */
  function LoadInt(avenrun: nat): int { AsInt32(avenrun / 2048) }

  /** Milliseconds from `last` to `now`, as an unsigned 64-bit number: a clock that went back would wrap. */
  function ElapsedMs(now: nat, last: nat): nat {
    if now >= last then (now - last) / MSEC
    else if (last - now) / MSEC == 0 then 0
    else (0x1_0000_0000_0000_0000 - (last - now) / MSEC) % 0x1_0000_0000_0000_0000
  }

  predicate Fires(c: Check, last: nat) {
    LoadInt(c.avenrun) >= 1 && ElapsedMs(c.now, last) >= 3 * 1000
  }

  /** The load is at least one exactly when its fixed-point number, with 11 bits behind the point, is; above 2^42
      the `int` is no longer positive, and from 2^43 on it starts again. */
  lemma LoadAtLeastOne(avenrun: nat)
    ensures LoadInt(avenrun) >= 1 <==> 2048 <= avenrun % 0x800_0000_0000 < 0x400_0000_0000
  {
    var q := avenrun / 2048;
    assert avenrun == 2048 * q + avenrun % 2048;
    DivModUnique(avenrun, 0x800_0000_0000, q / 0x1_0000_0000, 2048 * (q % 0x1_0000_0000) + avenrun % 2048);
  }

  /** Elapsed time reaches 3000 ms after three seconds, and at once when the clock went back a millisecond. */
  lemma ElapsedLongEnough(now: nat, last: nat)
    requires last < now + 0x8000_0000_0000_0000
    ensures ElapsedMs(now, last) >= 3000 <==> now >= last + 3_000_000_000 || last >= now + 1_000_000
  {
  }

  // ----- runs ---------------------------------------------------------------

  /** The clock never goes back, within a check or from one check to the next. */
  ghost predicate Monotonic(checks: seq<Check>) {
    && (forall i :: 0 <= i < |checks| ==> checks[i].now <= checks[i].after)
    && (forall i, j :: 0 <= i < j < |checks| ==> checks[i].after <= checks[j].now)
  }

  /** The static `last` after the first `n` checks. */
  function Last(checks: seq<Check>, n: nat): nat
    requires n <= |checks|
  {
    if n == 0 then 0
    else if Fires(checks[n - 1], Last(checks, n - 1)) then checks[n - 1].after
    else Last(checks, n - 1)
  }

  /** The dumps of the first `n` checks. */
  function Dumps(checks: seq<Check>, n: nat): seq<Dump>
    requires n <= |checks|
  {
    if n == 0 then []
    else Dumps(checks, n - 1) +
         if Fires(checks[n - 1], Last(checks, n - 1)) then [Dump(checks[n - 1].now, checks[n - 1].after)] else []
  }

  /** `last` is the time of the latest dump, and not ahead of the clock. */
  lemma {:induction false} LastIsLatest(checks: seq<Check>, n: nat)
    requires n <= |checks| && Monotonic(checks)
    ensures var d := Dumps(checks, n); Last(checks, n) == if d == [] then 0 else d[|d| - 1].at
    ensures forall i :: n <= i < |checks| ==> Last(checks, n) <= checks[i].now
  {
    if n > 0 { LastIsLatest(checks, n - 1); }
  }

  lemma QuietMs(now: nat, last: nat)
    requires last <= now
    ensures ElapsedMs(now, last) >= 3000 <==> now - last >= QUIET
  {
  }

  /** Neighbouring dumps are at least three seconds apart. */
  ghost predicate Spaced(d: seq<Dump>) {
    && (forall i :: 0 <= i < |d| ==> d[i].now <= d[i].at)
    && (forall i :: 0 < i < |d| ==> d[i].now >= d[i - 1].at + QUIET)
  }

  /** Over every run with a monotonic clock, dumps keep their distance, the first one from the clock's zero. */
  lemma {:induction false} DumpsSpaced(checks: seq<Check>, n: nat)
    requires n <= |checks| && Monotonic(checks)
    ensures var d := Dumps(checks, n); Spaced(d) && (d != [] ==> d[0].now >= QUIET)
  {
    if n > 0 {
      DumpsSpaced(checks, n - 1);
      LastIsLatest(checks, n - 1);
      QuietMs(checks[n - 1].now, Last(checks, n - 1));
    }
  }

  /** Dumps of the first `n` that fall between two times. */
  function CountIn(d: seq<Dump>, n: nat, from: nat, to: nat): nat
    requires n <= |d|
  {
    if n == 0 then 0 else CountIn(d, n - 1, from, to) + if from <= d[n - 1].at <= to then 1 else 0
  }

  lemma {:induction false} CountSpan(d: seq<Dump>, n: nat, from: nat, to: nat)
    requires n <= |d| && Spaced(d) && from <= to
    ensures CountIn(d, n, from, to) > 0 ==>
      d[n - 1].at >= from && (CountIn(d, n, from, to) - 1) * QUIET <= Min(d[n - 1].at, to) - from
  {
    if n > 0 { CountSpan(d, n - 1, from, to); }
  }

  /** Any window of T nanoseconds holds at most floor(T / 3 s) + 1 dumps. */
  lemma WindowBound(checks: seq<Check>, n: nat, from: nat, to: nat)
    requires n <= |checks| && Monotonic(checks) && from <= to
    ensures var d := Dumps(checks, n); CountIn(d, |d|, from, to) <= (to - from) / QUIET + 1
  {
    var d := Dumps(checks, n);
    DumpsSpaced(checks, n);
    CountSpan(d, |d|, from, to);
    var k := CountIn(d, |d|, from, to);
    if k > 0 { assert (k - 1) * QUIET <= to - from; }
  }

  /** A check that follows one under load finds the last dump less than three seconds and the gap ago. */
  lemma WaitBound(checks: seq<Check>, i: nat, gap: nat)
    requires 0 < i < |checks| && Monotonic(checks)
    requires LoadInt(checks[i - 1].avenrun) >= 1 && checks[i].now - checks[i - 1].now <= gap
    ensures checks[i].now < Last(checks, i) + QUIET + gap
  {
    LastIsLatest(checks, i - 1);
    QuietMs(checks[i - 1].now, Last(checks, i - 1));
  }

  /** From check `a` on and before check `b` the load is at least one, and checks up to `b` are at most `gap` apart. */
  ghost predicate Busy(checks: seq<Check>, a: nat, b: nat, gap: nat)
    requires b < |checks|
  {
    && (forall i :: a < i < b ==> LoadInt(checks[i].avenrun) >= 1)
    && (forall i :: a < i <= b ==> checks[i].now - checks[i - 1].now <= gap)
  }

  /** Check `i` of the run dumps. */
  predicate FiresAt(checks: seq<Check>, i: nat)
    requires i < |checks|
  {
    Fires(checks[i], Last(checks, i))
  }

  /** Between two dumps the recorded time is that of the first. */
  lemma {:induction false} LastStays(checks: seq<Check>, a: nat, b: nat)
    requires a < b <= |checks| && FiresAt(checks, a)
    requires forall i :: a < i < b ==> !FiresAt(checks, i)
    ensures Last(checks, b) == checks[a].after
    decreases b
  {
    if a + 1 < b {
      LastStays(checks, a, b - 1);
      assert !FiresAt(checks, b - 1);
    }
  }

  /** After a dump, and until the next, a check dumps exactly under load and three seconds later. */
  lemma NextFires(checks: seq<Check>, a: nat, b: nat)
    requires a < b < |checks| && Monotonic(checks) && FiresAt(checks, a)
    requires forall i :: a < i < b ==> !FiresAt(checks, i)
    ensures FiresAt(checks, b) <==> LoadInt(checks[b].avenrun) >= 1 && checks[b].now >= checks[a].after + QUIET
  {
    LastStays(checks, a, b);
    QuietMs(checks[b].now, checks[a].after);
  }

  /** If the load holds from one dump to the next, the next comes within three seconds and one gap. */
  lemma DumpsInTime(checks: seq<Check>, a: nat, b: nat, gap: nat)
    requires a < b < |checks| && Monotonic(checks) && Busy(checks, a, b, gap)
    requires FiresAt(checks, a) && FiresAt(checks, b) && forall i :: a < i < b ==> !FiresAt(checks, i)
    ensures checks[a].after + QUIET <= checks[b].now < checks[a].after + QUIET + gap
  {
    LastStays(checks, a, b);
    NextFires(checks, a, b);
    WaitBound(checks, b, gap);
  }

  /** And it does come: if the load lasts to a check three seconds after a dump, some check up to that one is
      the next dump, in time. */
  lemma NextDump(checks: seq<Check>, a: nat, c: nat, gap: nat) returns (b: nat)
    requires a < c < |checks| && Monotonic(checks) && FiresAt(checks, a)
    requires Busy(checks, a, c, gap) && LoadInt(checks[c].avenrun) >= 1
    requires checks[c].now >= checks[a].after + QUIET
    ensures a < b <= c && FiresAt(checks, b) && forall i :: a < i < b ==> !FiresAt(checks, i)
    ensures checks[b].now < checks[a].after + QUIET + gap
  {
    b := a + 1;
    NextFires(checks, a, b);
    while !FiresAt(checks, b)
      invariant a < b <= c
      invariant FiresAt(checks, b) <==> checks[b].now >= checks[a].after + QUIET
      invariant forall i :: a < i < b ==> !FiresAt(checks, i)
      decreases c - b
    {
      b := b + 1;
      NextFires(checks, a, b);
    }
    DumpsInTime(checks, a, b, gap);
  }

  // ----- the driver ---------------------------------------------------------

  class LoadMonitor {
    /** The static of `check_load`. */
    var last: nat
    /** The dumps so far. */
    ghost var dumps: seq<Dump>

    constructor ()
      ensures last == 0 && dumps == []
    {
      last, dumps := 0, [];
    }

    /** `check_load`; a dump of all task stacks is one event. */
    method CheckLoad(c: Check) returns (dumped: bool)
      modifies this
      ensures dumped == Fires(c, old(last))
      ensures old(last) < c.now + 0x8000_0000_0000_0000 ==>
        (dumped <==>
          && 2048 <= c.avenrun % 0x800_0000_0000 < 0x400_0000_0000
          && (c.now >= old(last) + 3_000_000_000 || old(last) >= c.now + 1_000_000))
      ensures last == (if dumped then c.after else old(last))
      ensures dumps == old(dumps) + if dumped then [Dump(c.now, c.after)] else []
    {
      LoadAtLeastOne(c.avenrun);
      if last < c.now + 0x8000_0000_0000_0000 { ElapsedLongEnough(c.now, last); }
      var load := AsInt32(c.avenrun / 2048);
      if load < 1 { return false; }
      var ms := ElapsedMs(c.now, last);
      if ms < 3 * 1000 { return false; }
      last := c.after;
      dumps := dumps + [Dump(c.now, c.after)];
      return true;
    }

    /** The timer firing once for every check: the handler always asks to be restarted. */
    method Watch(checks: seq<Check>)
      requires last == 0 && dumps == [] && Monotonic(checks)
      modifies this
      ensures last == Last(checks, |checks|) && dumps == Dumps(checks, |checks|)
      ensures Spaced(dumps)
    {
      var n := 0;
      while n < |checks|
        invariant 0 <= n <= |checks| && last == Last(checks, n) && dumps == Dumps(checks, n)
      {
        var dumped := CheckLoad(checks[n]);
        n := n + 1;
      }
      DumpsSpaced(checks, |checks|);
    }
  }
}
