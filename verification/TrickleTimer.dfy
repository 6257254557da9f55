/** The Trickle timer on a wrapping clock (trickle-timer.c). */
module TrickleTimer {
  import opened Numbers
  import opened Bits
  import opened TrickleLimits
  import opened TrickleRuns

  /** What the timer's ctimer will call. */
  datatype Pending = Nothing | Firing | Ending

  /** TRICKLE_TIMER_MAX_IMAX_WIDTH */
  datatype Width = Generic | Fixed16 | Fixed32

  /** A reading of a clock of w bits. */
  function Wrap(w: nat, x: int): nat { x % Pow2(w) }

  /** The half of the clock's range. */
  function Half(w: nat): nat
    requires w > 0
  {
    Pow2(w - 1)
  }

  /**
   * A wrapped difference looks like the past when it is over half of the range. Of the times less than
   * one range away, those it is right about are exactly those at most half of the range behind, or
   * less than half of it ahead.
   */
  lemma PastExactly(at: nat, now: nat, h: nat)
    requires h > 0 && now < at + 2 * h && at < now + 2 * h
    ensures now <= at + h && at < now + h <==>
      ((at % (2 * h) - now % (2 * h)) % (2 * h) > h - 1 <==> at < now)
  {
    ModDiff(at, now, 2 * h);
    var d := at - now;
    if d < 0 { DivMod(d, -1, d + 2 * h, 2 * h); } else { DivMod(d, 0, d, 2 * h); }
  }

  /** The ticks to wait until `at`, none if it is past. */
  function Until(at: nat, now: nat): nat { if at < now then 0 else at - now }

  /** The wait for a time that the code works out on wrapped readings. */
  function Waited(w: nat, at: nat, now: nat): nat
    requires w > 0
  {
    if now <= at then at - now
    else
      var late := (now - at) % Pow2(w);
      if late <= Half(w) then 0 else Pow2(w) - late
  }

  /** What is waited for is to come, or is at most half of the clock's range past, up to whole ranges. */
  ghost predicate OnTime(w: nat, at: nat, now: nat)
    requires w > 0
  {
    now <= at || (now - at) % Pow2(w) <= Half(w)
  }

  /** The wait is right exactly then; otherwise it is too long. */
  lemma WaitExactly(w: nat, at: nat, now: nat)
    requires w > 0
    ensures Waited(w, at, now) == Until(at, now) <==> OnTime(w, at, now)
    ensures Waited(w, at, now) >= Until(at, now)
  {}

  lemma WaitIs(w: nat, at: nat, now: nat)
    requires w > 0 && at < now + Half(w)
    ensures var loc := Wrap(w, Wrap(w, at) - Wrap(w, now));
      (if loc > ClockMax(w) / 2 then 0 else loc) == Waited(w, at, now)
  {
    PowUp(w);
    hide Pow2;
    var m := Pow2(w);
    assert Wrap(w, Wrap(w, at) - Wrap(w, now)) == (at - now) % m by { ModDiff(at, now, m); }
    if now <= at {
      assert (at - now) % m == at - now by { DivMod(at - now, 0, at - now, m); }
    } else {
      var late := (now - at) % m;
      assert (at - now) % m == if late == 0 then 0 else m - late by { NegMod(now - at, m); }
    }
  }

  lemma WrapAdds(w: nat, from: nat, ticks: nat)
    ensures Wrap(w, Wrap(w, from) + ticks) == Wrap(w, from + ticks)
  {
    hide Pow2;
    ModSum(from, ticks, Pow2(w));
  }

  /** get_t */
  function GetT(size: nat, rand: nat): (t: nat)
    requires size >= 2
    ensures SecondHalf(t, size)
  {
    size / 2 + rand % (size / 2)
  }

  /** Every time of the second half is drawn, but for the last one of an interval of odd size. */
  lemma DrawsAll(size: nat, t: nat)
    requires size >= 2 && size / 2 <= t < size
    ensures (exists rand: nat :: GetT(size, rand) == t) <==> t < size / 2 * 2
  {
    var half := size / 2;
    if t < half * 2 {
      DivMod(t - half, 0, t - half, half);
      assert GetT(size, t - half) == t;
    }
  }

  /** The largest interval of an accepted pair fits in a word. */
  lemma LargestHolds(w: nat, iMin: nat, i: nat)
    requires (w == 16 || w == 32) && !IMinIsBad(w, iMin) && !IPairIsBad(w, iMin, i)
    ensures Wrap(w, Shift(iMin, i)) == Shift(iMin, i) && 2 <= iMin <= Shift(iMin, i) <= Half(w)
  {
    hide Pow2, Wrap, Shift, IPairIsBad;
    AcceptedFits(w, iMin, i);
    MulMono(1, Pow2(i), iMin);
    ShiftValue(iMin, i);
    WordHolds(w, Shift(iMin, i));
  }

  class Timer {
    const w: nat
    const compensate: bool
    var iMin: nat
    var iCur: nat
    var iStart: nat
    var iMaxAbs: nat
    var iMax: nat
    var k: nat
    var c: nat
    var pending: Pending
    var ctInterval: nat

    /** The interval on a clock that never wraps, and the time at which the ctimer expires on it. */
    ghost var live: Interval
    ghost var due: nat

    ghost function Limits(): Params
      reads this
    {
      Params(iMin, iMaxAbs)
    }

    ghost predicate Configured()
      reads this
    {
      (w == 16 || w == 32) && 0 < k <= 255 && !IMinIsBad(w, iMin) &&
      iMaxAbs == Shift(iMin, iMax) && 2 <= iMin <= iMaxAbs <= Half(w)
    }

    ghost predicate Running()
      reads this
    {
      Configured() && Sound(Limits(), live) &&
      iCur == live.size && iStart == Wrap(w, live.begin) && c == Min(live.heard, 255) &&
      pending == (if live.fired then Ending else Firing) &&
      due >= live.begin + (if live.fired then live.size else live.t)
    }

    constructor (w: nat, compensate: bool)
      ensures this.w == w && this.compensate == compensate
      ensures iCur == 0
    {
      this.w, this.compensate := w, compensate;
      iMin, iCur, iStart, iMaxAbs, iMax, k, c, ctInterval := 0, 0, 0, 0, 0, 0, 0, 0;
      pending := Nothing;
      live, due := Interval(0, 0, 0, 0, false), 0;
    }

    /** max_imax */
    method MaxImax(width: Width, value: nat) returns (best: nat)
      requires w == 16 || w == 32
      requires (width == Fixed16 ==> w == 16) && (width == Fixed32 ==> w == 32)
      requires !IMinIsBad(w, value)
      ensures !IPairIsBad(w, value, best)
      ensures forall i: nat :: !IPairIsBad(w, value, i) ==> i <= best + 1
      ensures width == Generic ==> forall i: nat :: !IPairIsBad(w, value, i) ==> i <= best
    {
      hide IPairIsBad, LeadingZeros, IMinIsBad;
      var largest := MaxImaxGeneric(w, value);
      match width {
        case Generic => best := largest;
        case Fixed16 =>
          best := MaxImax16(value);
          FixedIsSafe(w, value, best, largest);
        case Fixed32 =>
          best := MaxImax32(value);
          FixedIsSafe(w, value, best, largest);
      }
    }

    /** trickle_timer_config: a usable configuration, with as many of the asked doublings as the clock allows. */
    method Config(width: Width, iMin': nat, iMax': nat, k': nat) returns (ok: bool)
      requires w == 16 || w == 32
      requires (width == Fixed16 ==> w == 16) && (width == Fixed32 ==> w == 32)
      requires k' <= 255
      modifies this
      ensures ok <==> !IMinIsBad(w, iMin') && iMax' > 0 && k' > 0
      ensures !ok ==> unchanged(this)
      ensures iCur == old(iCur) && pending == old(pending) && live == old(live) && due == old(due)
      ensures ok ==> Configured() && iMin == iMin' && k == k'
      ensures ok && !IPairIsBad(w, iMin', iMax') ==> iMax == iMax'
      ensures ok && IPairIsBad(w, iMin', iMax') ==>
        && !IPairIsBad(w, iMin', iMax)
        && forall i: nat :: !IPairIsBad(w, iMin', i) ==> i <= iMax + (if width == Generic then 0 else 1)
    {
      hide Wrap, Shift, IPairIsBad, Half;
      if IMinIsBad(w, iMin') {
        return false;
      }
      if iMax' == 0 || k' == 0 {
        return false;
      }
      var best := iMax';
      if IPairIsBad(w, iMin', iMax') {
        best := MaxImax(width, iMin');
      }
      LargestHolds(w, iMin', best);
      iMin, iMax, k := iMin', best, k';
      iMaxAbs := Wrap(w, Shift(iMin', best));
      return true;
    }

    /** new_interval */
    method NewInterval(now: nat, rand: nat)
      requires Configured() && iMin <= iCur <= iMaxAbs
      modifies this`c, this`iStart, this`pending, this`ctInterval, this`live, this`due
      ensures Running()
      ensures live == Interval(now, iCur, GetT(iCur, rand), 0, false)
      ensures ctInterval == live.t && due == now + ctInterval
    {
      hide Pow2, Wrap, Shift, IMinIsBad;
      c := 0;
      ctInterval := GetT(iCur, rand);
      pending := Firing;
      iStart := Wrap(w, now);
      live := Interval(now, iCur, ctInterval, 0, false);
      due := now + ctInterval;
    }

    /** trickle_timer_set */
    method Set(now: nat, rand: nat, rand2: nat)
      requires Configured()
      modifies this
      ensures Running() && Limits() == old(Limits()) && k == old(k)
      ensures live.begin == now && live.heard == 0 && !live.fired && ctInterval == live.t && due == now + ctInterval
      ensures live.size == iMin + rand % (iMaxAbs - iMin + 1) && live.t == GetT(live.size, rand2)
    {
      hide Pow2, Wrap, Shift, IMinIsBad;
      iCur := iMin + rand % (iMaxAbs - iMin + 1);
      NewInterval(now, rand2);
    }

    /** trickle_timer_consistency */
    method Consistency()
      requires c <= 0xFF
      modifies this`c, this`live
      ensures c == Min(old(c) + 1, 0xFF)
      ensures old(Running()) ==> Running() && live == Next(Limits(), old(live), Hear)
    {
      hide Pow2, Wrap, Shift, IMinIsBad;
      if c < 0xFF {
        c := c + 1;
      }
      live := Next(Limits(), live, Hear);
    }

    /** trickle_timer_inconsistency; it starts a timer that was stopped. */
    method Inconsistency(now: nat, rand: nat)
      requires Configured() && (iCur != 0 ==> Running())
      modifies this
      ensures Running() && Limits() == old(Limits()) && k == old(k)
      ensures old(iCur) == 0 ==> live == Interval(now, iMin, GetT(iMin, rand), 0, false)
      ensures old(iCur) != 0 ==>
        && Allowed(Limits(), old(live), Reset(now, GetT(iMin, rand)))
        && live == Next(Limits(), old(live), Reset(now, GetT(iMin, rand)))
      ensures if old(iCur) == iMin then due == old(due) && ctInterval == old(ctInterval)
        else ctInterval == live.t && due == now + ctInterval
    {
      hide Pow2, Wrap, Shift, IMinIsBad;
      if iCur != iMin {
        iCur := iMin;
        NewInterval(now, rand);
      }
    }

    /** trickle_timer_stop */
    method Stop()
      modifies this`iCur, this`pending
      ensures iCur == 0 && pending == Nothing
    {
      pending := Nothing;
      iCur := 0;
    }

    /**
     * fire: the protocol's callback learns whether to transmit, and may stop the timer (`stops`).
     * However late it is called, the wrapped test of schedule_for_end waits for the true end exactly if that is on
     * time.
     */
    method Fire(now: nat, stops: bool) returns (transmit: bool)
      requires Running() && pending == Firing && due <= now
      modifies this
      ensures transmit <==> old(live).heard < k
      ensures stops ==> iCur == 0 && pending == Nothing
      ensures Limits() == old(Limits()) && k == old(k)
      ensures !stops ==>
        && Running() && live == Next(Limits(), old(live), Transmit)
        && Allowed(Limits(), old(live), Transmit)
      ensures !stops ==> ctInterval == Waited(w, live.begin + live.size, now) && due == now + ctInterval
      ensures !stops ==> (ctInterval == Until(live.begin + live.size, now) <==> OnTime(w, live.begin + live.size, now))
    {
      hide Pow2, Wrap, Shift, IMinIsBad, Waited, OnTime;
      transmit := k == 0 || c < k;
      if stops {
        Stop();
      }
      if iCur != 0 {
        WaitExactly(w, live.begin + live.size, now);
        ScheduleForEnd(now);
      }
    }

    /** schedule_for_end */
    method ScheduleForEnd(now: nat)
      requires Running() && pending == Firing && due <= now
      modifies this`pending, this`ctInterval, this`live, this`due
      ensures Running() && live == Next(Limits(), old(live), Transmit)
      ensures ctInterval == Waited(w, live.begin + live.size, now) && due == now + ctInterval
    {
      hide Pow2, Wrap, Shift, Half, ClockMax, GetT, IMinIsBad, Waited, OnTime;
      WrapAdds(w, live.begin, live.size);
      WaitIs(w, live.begin + live.size, now);
      WaitExactly(w, live.begin + live.size, now);
      var end := Wrap(w, iStart + iCur);
      var loc := Wrap(w, end - Wrap(w, now));
      if loc > ClockMax(w) / 2 {
        loc := 0;
      }
      ctInterval := loc;
      pending := Ending;
      live := live.(fired := true);
      due := now + loc;
    }

    /**
     * double_interval: the interval doubles up to its maximum. With compensation the new one begins where
     * the old one ended, however late the callback is; without, it begins now.
     */
    method DoubleInterval(now: nat, rand: nat)
      requires Running() && pending == Ending && due <= now
      modifies this
      ensures Running() && Limits() == old(Limits()) && k == old(k)
      ensures var e := Expire(if compensate then old(live).begin + old(live).size else now, live.t);
        Allowed(Limits(), old(live), e) && live == Next(Limits(), old(live), e)
      ensures live.t == GetT(live.size, rand) && c == live.heard == 0
      ensures due == now + ctInterval
      ensures ctInterval == if compensate then Waited(w, live.begin + live.t, now) else live.t
      ensures compensate ==> (ctInterval == Until(live.begin + live.t, now) <==> OnTime(w, live.begin + live.t, now))
    {
      hide Pow2, Wrap, Shift, Half, ClockMax, GetT, IMinIsBad, Waited, OnTime;
      WrapAdds(w, live.begin, live.size);
      c := 0;
      var lastEnd := Wrap(w, iStart + iCur);
      ghost var end := live.begin + live.size;
      if iCur <= iMaxAbs / 2 {
        WordHolds(w, 2 * iCur);
        iCur := Wrap(w, 2 * iCur);
      } else {
        iCur := iMaxAbs;
      }
      var t := GetT(iCur, rand);
      var loc := t;
      if compensate {
        WrapAdds(w, end, t);
        WaitIs(w, end + t, now);
        WaitExactly(w, end + t, now);
        loc := Wrap(w, Wrap(w, lastEnd + t) - Wrap(w, now));
        if loc > ClockMax(w) / 2 {
          loc := 0;
        }
        iStart := lastEnd;
      } else {
        iStart := Wrap(w, now);
      }
      ctInterval := loc;
      pending := Firing;
      live := Interval(if compensate then end else now, iCur, t, 0, false);
      due := now + loc;
    }
  }

  lemma WordHolds(w: nat, x: nat)
    requires w > 0 && x <= Half(w)
    ensures Wrap(w, x) == x
  {
    PowUp(w);
    hide Pow2;
    DivMod(x, 0, x, Pow2(w));
  }
}
