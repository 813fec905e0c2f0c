/** Request-rate and concurrency limits per key (backend/security/abuse_limiter.py). */
module AbuseLimiter {
  import opened Basics

  /** Configuration validates all three as positive. */
  datatype Limits = Limits(maxRequests: nat, windowSeconds: int, maxConcurrent: nat)

  predicate LimitsOk(l: Limits) { l.maxRequests >= 1 && l.windowSeconds >= 1 && l.maxConcurrent >= 1 }

  /** One key's deque of admission times and its in-flight count. */
  datatype KeyState = KeyState(requests: seq<real>, active: nat)

  datatype Verdict = Granted | RateLimited(retry: int) | Busy

  function Prune(requests: seq<real>, cutoff: real): seq<real> {
    if requests != [] && requests[0] <= cutoff then Prune(requests[1..], cutoff) else requests
  }

  /** `math.ceil`. */
  function Ceil(x: real): int { -((-x).Floor) }

  function AtLeastOne(n: int): int { if n < 1 then 1 else n }

  function Admit(k: KeyState, now: real, l: Limits): (KeyState, Verdict)
    requires LimitsOk(l)
  {
    var kept := Prune(k.requests, now - l.windowSeconds as real);
    if |kept| >= l.maxRequests then
      (k.(requests := kept), RateLimited(AtLeastOne(Ceil(kept[0] + l.windowSeconds as real - now))))
    else if k.active >= l.maxConcurrent then (k.(requests := kept), Busy)
    else (KeyState(kept + [now], k.active + 1), Granted)
  }

  function Leave(k: KeyState): KeyState {
    k.(active := if k.active <= 1 then 0 else k.active - 1)
  }

  // ---- The shared limiter --------------------------------------------------

  class AbuseLimiter {
    var requests: map<string, seq<real>>
    var active: map<string, nat>

    constructor ()
      ensures forall k :: StateOf(k) == KeyState([], 0)
    {
      requests, active := map[], map[];
    }

    /** Both dictionaries default: an unknown key has no requests and nothing in flight. */
    function StateOf(key: string): KeyState
      reads this
    {
      KeyState(if key in requests then requests[key] else [], if key in active then active[key] else 0)
    }

    /** The critical section of `acquire`, at the clock reading `now`. */
    method Acquire(key: string, now: real, l: Limits) returns (lease: AbuseLease?, retry: int)
      requires LimitsOk(l)
      modifies this
      ensures var (k, v) := Admit(old(StateOf(key)), now, l);
        && StateOf(key) == k
        && (lease != null <==> v.Granted?)
        && retry == match v { case Granted => 0 case RateLimited(r) => r case Busy => 1 }
      ensures forall other :: other != key ==> StateOf(other) == old(StateOf(other))
      ensures lease != null ==> fresh(lease) && lease.limiter == this && lease.key == key && !lease.released
    {
      var queue := if key in requests then requests[key] else [];
      var cutoff := now - l.windowSeconds as real;
      while queue != [] && queue[0] <= cutoff
        invariant Prune(queue, cutoff) == Prune(old(StateOf(key)).requests, cutoff)
        decreases |queue|
      {
        queue := queue[1..];
      }
      requests := requests[key := queue];
      if |queue| >= l.maxRequests {
        return null, AtLeastOne(Ceil(queue[0] + l.windowSeconds as real - now));
      }
      var count := if key in active then active[key] else 0;
      active := active[key := count];
      if count >= l.maxConcurrent { return null, 1; }
      requests := requests[key := queue + [now]];
      active := active[key := count + 1];
      lease := new AbuseLease(this, key);
      retry := 0;
    }

    method Release(key: string)
      modifies this`active
      ensures StateOf(key) == Leave(old(StateOf(key)))
      ensures forall other :: other != key ==> StateOf(other) == old(StateOf(other))
    {
      var count := if key in active then active[key] else 0;
      if count <= 1 { active := active - {key}; } else { active := active[key := count - 1]; }
    }

    method Reset()
      modifies this
      ensures forall k :: StateOf(k) == KeyState([], 0)
    {
      requests, active := map[], map[];
    }
  }

  class AbuseLease {
    const limiter: AbuseLimiter
    const key: string
    var released: bool

    constructor (limiter: AbuseLimiter, key: string)
      ensures this.limiter == limiter && this.key == key && !released
    {
      this.limiter, this.key, released := limiter, key, false;
    }

    /** Gives the slot back once; later calls do nothing. */
    method Release()
      modifies this, limiter`active
      ensures released
      ensures limiter.StateOf(key)
        == if old(released) then old(limiter.StateOf(key)) else Leave(old(limiter.StateOf(key)))
      ensures forall other :: other != key ==> limiter.StateOf(other) == old(limiter.StateOf(other))
    {
      if !released {
        released := true;
        limiter.Release(key);
      }
    }
  }

  // ---- One key over its whole history --------------------------------------

  datatype Step = AcquireAt(now: real) | ReleaseLease(lease: nat) | ResetAll

  /** The key's state, the flags of the leases handed out, and a log of admissions. */
  datatype History = History(state: KeyState, released: seq<bool>, admitted: seq<real>)

  const START := History(KeyState([], 0), [], [])

  function Do(h: History, s: Step, l: Limits): History
    requires LimitsOk(l)
  {
    match s
    case AcquireAt(now) =>
      var (k, v) := Admit(h.state, now, l);
      if v.Granted? then History(k, h.released + [false], h.admitted + [now]) else h.(state := k)
    case ReleaseLease(i) =>
      if i < |h.released| && !h.released[i] then
        History(Leave(h.state), h.released[i := true], h.admitted)
      else h
    case ResetAll => h.(state := KeyState([], 0))
  }

  function Run(steps: seq<Step>, l: Limits): History
    requires LimitsOk(l)
  {
    if steps == [] then START else Do(Run(steps[..|steps| - 1], l), steps[|steps| - 1], l)
  }

  /** Clock readings in the order in which the lock is taken. */
  function Clocks(steps: seq<Step>): seq<real> {
    if steps == [] then []
    else
      var s := steps[|steps| - 1];
      Clocks(steps[..|steps| - 1]) + if s.AcquireAt? then [s.now] else []
  }

  /** No reading lies more than `lag` before an earlier one; without lag they ascend. */
  ghost predicate Lagging(ts: seq<real>, lag: real) {
    forall i, j :: 0 <= i < j < |ts| ==> ts[i] - lag <= ts[j]
  }

  ghost predicate Ascending(ts: seq<real>) { Lagging(ts, 0.0) }

  ghost predicate NoReset(steps: seq<Step>) { forall i :: 0 <= i < |steps| ==> !steps[i].ResetAll? }

  function Unreleased(flags: seq<bool>): nat {
    if flags == [] then 0 else Unreleased(flags[..|flags| - 1]) + if flags[|flags| - 1] then 0 else 1
  }

  /** Admissions `max_requests` or more apart in order are a window less `lag` apart in time. */
  ghost predicate Spaced(admitted: seq<real>, lag: real, l: Limits) {
    forall i, j :: 0 <= i && i + l.maxRequests <= j < |admitted| ==>
      admitted[j] - admitted[i] >= l.windowSeconds as real - lag
  }

  /** The deque is the tail of the admissions; everything before it is a window older than
      the latest reading. */
  ghost predicate Windowed(admitted: seq<real>, requests: seq<real>, top: real, l: Limits) {
    && |requests| <= |admitted| && |requests| <= l.maxRequests
    && admitted[|admitted| - |requests|..] == requests
    && (forall i :: 0 <= i < |admitted| ==> admitted[i] <= top)
    && (forall i :: 0 <= i < |admitted| - |requests| ==> admitted[i] <= top - l.windowSeconds as real)
  }

  /** What holds between steps when `top` is the latest of the clock readings. */
  ghost predicate Inv(h: History, top: real, lag: real, l: Limits) {
    && Spaced(h.admitted, lag, l) && Lagging(h.admitted, lag)
    && Windowed(h.admitted, h.state.requests, top, l)
  }

  lemma {:induction false} PruneIsSuffix(requests: seq<real>, cutoff: real)
    ensures |Prune(requests, cutoff)| <= |requests|
    ensures var d := |requests| - |Prune(requests, cutoff)|;
      && Prune(requests, cutoff) == requests[d..]
      && (forall i :: 0 <= i < d ==> requests[i] <= cutoff)
      && (Prune(requests, cutoff) != [] ==> Prune(requests, cutoff)[0] > cutoff)
  {
    if requests != [] && requests[0] <= cutoff { PruneIsSuffix(requests[1..], cutoff); }
  }

  lemma {:induction false} UnreleasedUpdate(flags: seq<bool>, i: nat)
    requires i < |flags| && !flags[i]
    ensures Unreleased(flags) >= 1 && Unreleased(flags[i := true]) == Unreleased(flags) - 1
  {
    var k := |flags| - 1;
    if i < k {
      UnreleasedUpdate(flags[..k], i);
      assert flags[i := true][..k] == flags[..k][i := true];
    } else {
      assert flags[i := true][..k] == flags[..k];
    }
  }

  function Later(a: real, b: real): real { if a < b then b else a }

  lemma PruneKeepsWindowed(admitted: seq<real>, requests: seq<real>, top: real, now: real, l: Limits)
    requires LimitsOk(l) && Windowed(admitted, requests, top, l)
    ensures Windowed(admitted, Prune(requests, now - l.windowSeconds as real), Later(top, now), l)
  {
    var cutoff := now - l.windowSeconds as real;
    var kept := Prune(requests, cutoff);
    PruneIsSuffix(requests, cutoff);
    var n, m, k := |admitted|, |requests|, |kept|;
    assert admitted[n - k..] == kept;
    forall i | 0 <= i < n - k ensures admitted[i] <= Later(top, now) - l.windowSeconds as real {
      if i >= n - m { assert admitted[i] == requests[i - (n - m)]; }
    }
  }

  lemma AppendKeepsSpaced(admitted: seq<real>, kept: seq<real>, top: real, now: real, lag: real, l: Limits)
    requires LimitsOk(l) && Windowed(admitted, kept, top, l) && |kept| < l.maxRequests
    requires now <= top <= now + lag && Spaced(admitted, lag, l) && Lagging(admitted, lag)
    ensures Windowed(admitted + [now], kept + [now], top, l)
    ensures Spaced(admitted + [now], lag, l) && Lagging(admitted + [now], lag)
  {
    var n, k, more := |admitted|, |kept|, admitted + [now];
    assert more[n + 1 - (k + 1)..] == kept + [now];
    forall i, j | 0 <= i && i + l.maxRequests <= j < n + 1
      ensures more[j] - more[i] >= l.windowSeconds as real - lag
    {
      assert more[i] == admitted[i];
      if j == n { assert i < n - k; } else { assert more[j] == admitted[j]; }
    }
  }

  lemma AcquireKeepsInv(h: History, top: real, now: real, lag: real, l: Limits)
    requires LimitsOk(l) && Inv(h, top, lag, l) && lag >= 0.0 && top <= now + lag
    ensures Inv(Do(h, AcquireAt(now), l), Later(top, now), lag, l)
  {
    hide Spaced, Lagging, Windowed, Prune;
    var kept := Prune(h.state.requests, now - l.windowSeconds as real);
    PruneKeepsWindowed(h.admitted, h.state.requests, top, now, l);
    if |kept| < l.maxRequests { AppendKeepsSpaced(h.admitted, kept, Later(top, now), now, lag, l); }
  }

  /** The latest of the readings, whatever their order. */
  function Top(ts: seq<real>): real {
    if ts == [] then 0.0
    else if |ts| == 1 then ts[0]
    else Later(Top(ts[..|ts| - 1]), ts[|ts| - 1])
  }

  lemma {:induction false} TopIsReading(ts: seq<real>) returns (i: nat)
    requires ts != []
    ensures i < |ts| && ts[i] == Top(ts)
  {
    i := |ts| - 1;
    if |ts| > 1 && ts[i] < Top(ts[..i]) { i := TopIsReading(ts[..i]); }
  }

  lemma {:induction false} LaggingPrefix(ts: seq<real>, t: real, lag: real)
    requires Lagging(ts + [t], lag)
    ensures Lagging(ts, lag) && forall i :: 0 <= i < |ts| ==> ts[i] - lag <= t
  {
    var all := ts + [t];
    forall i, j | 0 <= i < j < |ts| ensures ts[i] - lag <= ts[j] { assert all[i] == ts[i] && all[j] == ts[j]; }
    forall i | 0 <= i < |ts| ensures ts[i] - lag <= t { assert all[i] == ts[i] && all[|ts|] == t; }
  }

  lemma {:induction false} AdmittedMeansClocked(steps: seq<Step>, l: Limits)
    requires LimitsOk(l) && Run(steps, l).admitted != []
    ensures Clocks(steps) != []
  {
    if steps != [] {
      hide Admit;
      var k := |steps| - 1;
      if !steps[k].AcquireAt? { AdmittedMeansClocked(steps[..k], l); }
    }
  }

  /** With nothing read yet, nothing is stored and any reading can come first. */
  lemma {:induction false} UnreadIsStart(steps: seq<Step>, l: Limits)
    requires LimitsOk(l) && Clocks(steps) == []
    ensures Run(steps, l).admitted == [] && Run(steps, l).state.requests == []
  {
    if steps != [] { UnreadIsStart(steps[..|steps| - 1], l); }
  }

  lemma {:induction false} ClocksStep(steps: seq<Step>, lag: real)
    requires steps != [] && Lagging(Clocks(steps), lag)
    ensures var before, s := Clocks(steps[..|steps| - 1]), steps[|steps| - 1];
      && Lagging(before, lag) && Clocks(steps) == (if s.AcquireAt? then before + [s.now] else before)
      && (s.AcquireAt? ==> forall i :: 0 <= i < |before| ==> before[i] - lag <= s.now)
  {
    var before, s := Clocks(steps[..|steps| - 1]), steps[|steps| - 1];
    if s.AcquireAt? { LaggingPrefix(before, s.now, lag); } else { assert before + [] == before; }
  }

  /** Over any history whose clock readings lag at most by `lag`. */
  lemma {:induction false} HistoryInv(steps: seq<Step>, lag: real, l: Limits)
    requires LimitsOk(l) && NoReset(steps) && lag >= 0.0 && Lagging(Clocks(steps), lag)
    ensures Inv(Run(steps, l), Top(Clocks(steps)), lag, l)
  {
    if steps != [] {
      var k := |steps| - 1; var s := steps[k];
      assert !s.ResetAll?;
      ClocksStep(steps, lag);
      HistoryInv(steps[..k], lag, l);
      hide Lagging, Spaced, Windowed, Clocks, Admit, Top;
      if s.AcquireAt? { AcquireAfter(steps[..k], s.now, lag, l); }
    }
  }

  lemma AcquireAfter(steps: seq<Step>, now: real, lag: real, l: Limits)
    requires LimitsOk(l) && lag >= 0.0 && Inv(Run(steps, l), Top(Clocks(steps)), lag, l)
    requires forall i :: 0 <= i < |Clocks(steps)| ==> Clocks(steps)[i] - lag <= now
    ensures Inv(Do(Run(steps, l), AcquireAt(now), l), Top(Clocks(steps) + [now]), lag, l)
  {
    var ts := Clocks(steps);
    assert (ts + [now])[..|ts|] == ts;
    hide Do, Run, Clocks, Spaced, Lagging;
    if ts == [] {
      UnreadIsStart(steps, l);
      AcquireKeepsInv(Run(steps, l), now, now, lag, l) by { hide Windowed; UnreadFits(Run(steps, l), now, lag, l); }
    } else {
      var i := TopIsReading(ts);
      AcquireKeepsInv(Run(steps, l), Top(ts), now, lag, l);
    }
  }

  lemma UnreadFits(h: History, top: real, lag: real, l: Limits)
    requires h.admitted == [] && h.state.requests == []
    ensures Inv(h, top, lag, l)
  { }

  /** Over any history whose clock readings lag at most by `lag`: no half-open interval of
      one window length less that lag, open on either side, holds more than `max_requests`
      admissions. With readings in lock order the lag is zero. */
  lemma {:induction false} RateBound(steps: seq<Step>, l: Limits, lag: real, x: real)
    requires LimitsOk(l) && NoReset(steps) && lag >= 0.0 && Lagging(Clocks(steps), lag)
    ensures var a := Run(steps, l).admitted; var w := l.windowSeconds as real - lag;
      && |set i: nat | i < |a| && x - w < a[i] <= x| <= l.maxRequests
      && |set i: nat | i < |a| && x <= a[i] < x + w| <= l.maxRequests
  {
    HistoryInv(steps, lag, l);
    var a, w := Run(steps, l).admitted, l.windowSeconds as real - lag;
    assert Spaced(a, lag, l);
    hide Inv, Spaced, Lagging, Run, Clocks;
    CloseIndices((set i: nat | i < |a| && x - w < a[i] <= x), a, lag, l);
    CloseIndices((set i: nat | i < |a| && x <= a[i] < x + w), a, lag, l);
  }

  /** Admissions that all lie closer together than that are few. */
  lemma CloseIndices(s: set<nat>, a: seq<real>, lag: real, l: Limits)
    requires LimitsOk(l) && Spaced(a, lag, l)
    requires forall i :: i in s ==> i < |a|
    requires forall i, j :: i in s && j in s ==> a[j] - a[i] < l.windowSeconds as real - lag
    ensures |s| <= l.maxRequests
  {
    if s != {} {
      var m := LeastOf(s);
      assert forall i :: i in s ==> m <= i < m + l.maxRequests;
      BlockSize(s, m, l.maxRequests);
    }
  }

  lemma {:induction false} LeastOf(s: set<nat>) returns (m: nat)
    requires s != {}
    ensures m in s && forall i :: i in s ==> m <= i
    decreases |s|
  {
    m :| m in s;
    if s != {m} {
      var r := LeastOf(s - {m});
      assert s == (s - {m}) + {m};
      m := if r < m then r else m;
    }
  }

  lemma {:induction false} BlockSize(s: set<nat>, m: nat, n: nat)
    requires forall i :: i in s ==> m <= i < m + n
    ensures |s| <= n
  {
    if n == 0 {
      assert s == {};
    } else {
      BlockSize(s - {m + n - 1}, m, n - 1);
      if m + n - 1 in s { assert s == (s - {m + n - 1}) + {m + n - 1}; }
      else { assert s - {m + n - 1} == s; }
    }
  }

  /** The admissions later than `cutoff`. */
  ghost function Since(admitted: seq<real>, cutoff: real): set<nat> {
    set i: nat | i < |admitted| && admitted[i] > cutoff
  }

  /** Admissions younger than one window at `now`. */
  ghost function Young(admitted: seq<real>, now: real, l: Limits): set<nat> {
    Since(admitted, now - l.windowSeconds as real)
  }

  lemma {:induction false} BlockCount(s: set<nat>, a: nat, b: nat)
    requires a <= b && forall i: nat :: i in s <==> a <= i < b
    ensures |s| == b - a
  {
    if a < b {
      BlockCount(s - {b - 1}, a, b - 1);
      assert s == (s - {b - 1}) + {b - 1};
    } else {
      assert s == {};
    }
  }

  /** `kept` is the end of the ascending admissions, cut where they pass `cutoff`. */
  lemma SinceIsTail(admitted: seq<real>, kept: seq<real>, cutoff: real)
    requires Ascending(admitted) && |kept| <= |admitted| && admitted[|admitted| - |kept|..] == kept
    requires forall i :: 0 <= i < |admitted| - |kept| ==> admitted[i] <= cutoff
    requires kept != [] ==> kept[0] > cutoff
    ensures |Since(admitted, cutoff)| == |kept|
  {
    var d := |admitted| - |kept|;
    forall i: nat ensures i in Since(admitted, cutoff) <==> d <= i < |admitted| {
      if d <= i < |admitted| {
        assert admitted[d] == kept[0];
        if d < i { assert admitted[d] <= admitted[i]; }
      }
    }
    BlockCount(Since(admitted, cutoff), d, |admitted|);
  }

  /** What is left of the deque are exactly the admissions younger than one window. */
  lemma {:induction false} PrunedAreYoung(admitted: seq<real>, requests: seq<real>, top: real, now: real, l: Limits)
    requires LimitsOk(l) && Ascending(admitted) && Windowed(admitted, requests, top, l) && top <= now
    ensures |Young(admitted, now, l)| == |Prune(requests, now - l.windowSeconds as real)|
  {
    var cutoff := now - l.windowSeconds as real;
    PruneKeepsWindowed(admitted, requests, top, now, l);
    PruneIsSuffix(requests, cutoff);
    hide Ascending, Prune, Since;
    SinceIsTail(admitted, Prune(requests, cutoff), cutoff);
  }

  /** Without `reset` the counter is the number of leases not yet given back, and it never
      exceeds the limit, whatever the clock reads. */
  lemma {:induction false} ActiveIsUnreleased(steps: seq<Step>, l: Limits)
    requires LimitsOk(l) && NoReset(steps)
    ensures Run(steps, l).state.active == Unreleased(Run(steps, l).released) <= l.maxConcurrent
  {
    if steps != [] {
      var k := |steps| - 1; var s := steps[k];
      assert !s.ResetAll?;
      ActiveIsUnreleased(steps[..k], l);
      var h := Run(steps[..k], l);
      assert (h.released + [false])[..|h.released|] == h.released;
      if s.ReleaseLease? && s.lease < |h.released| && !h.released[s.lease] { UnreleasedUpdate(h.released, s.lease); }
    }
  }

  /** The limiter refuses nothing it could admit: a request is granted exactly when fewer
      than `max_requests` admissions are younger than one window and a slot is free, and
      the two refusals are told apart by the first condition. */
  lemma {:induction false} AdmittedExactly(steps: seq<Step>, l: Limits, now: real)
    requires LimitsOk(l) && NoReset(steps) && Ascending(Clocks(steps) + [now])
    ensures var h := Run(steps, l); var v := Admit(h.state, now, l).1;
      && (v.RateLimited? <==> |Young(h.admitted, now, l)| >= l.maxRequests)
      && (v.Granted? <==> |Young(h.admitted, now, l)| < l.maxRequests && Unreleased(h.released) < l.maxConcurrent)
  {
    var h, ts := Run(steps, l), Clocks(steps);
    hide Run, Clocks, Young, Unreleased, Spaced, Windowed, Prune;
    LaggingPrefix(ts, now, 0.0);
    HistoryInv(steps, 0.0, l);
    ActiveIsUnreleased(steps, l);
    if ts == [] {
      UnreadIsStart(steps, l);
      UnreadFits(h, now, 0.0, l);
      PrunedAreYoung([], [], now, now, l);
    } else {
      var i := TopIsReading(ts);
      PrunedAreYoung(h.admitted, h.state.requests, Top(ts), now, l);
    }
  }

  /** The rate check at time `t`, with nothing admitted since. */
  predicate RatePasses(requests: seq<real>, t: real, l: Limits) {
    |Prune(requests, t - l.windowSeconds as real)| < l.maxRequests
  }

  lemma CeilLeast(x: real, r: int)
    ensures r >= Ceil(x) <==> r as real >= x
  { }

  lemma RetryForDeque(kept: seq<real>, now: real, l: Limits, r: int)
    requires LimitsOk(l) && |kept| == l.maxRequests && kept[0] > now - l.windowSeconds as real
    ensures RatePasses(kept, now + r as real, l)
      <==> r >= AtLeastOne(Ceil(kept[0] + l.windowSeconds as real - now))
  {
    var x := kept[0] + l.windowSeconds as real - now;
    PruneIsSuffix(kept, now + r as real - l.windowSeconds as real);
    CeilLeast(x, r);
    CeilLeast(x, 0);
  }

  lemma RetryOfState(k: KeyState, now: real, l: Limits, r: int)
    requires LimitsOk(l) && |k.requests| <= l.maxRequests && Admit(k, now, l).1.RateLimited?
    ensures var (after, v) := Admit(k, now, l);
      RatePasses(after.requests, now + r as real, l) <==> r >= v.retry
  {
    var cutoff := now - l.windowSeconds as real;
    PruneIsSuffix(k.requests, cutoff);
    RetryForDeque(Prune(k.requests, cutoff), now, l, r);
  }

  lemma {:induction false} DequeIsShort(steps: seq<Step>, l: Limits)
    requires LimitsOk(l)
    ensures |Run(steps, l).state.requests| <= l.maxRequests
  {
    if steps != [] {
      var k := |steps| - 1;
      DequeIsShort(steps[..k], l);
      if steps[k].AcquireAt? {
        PruneIsSuffix(Run(steps[..k], l).state.requests, steps[k].now - l.windowSeconds as real);
      }
    }
  }

  /** The retry value of a rate rejection is the least whole number of seconds after which
      the rate check passes, if nothing else is admitted meanwhile. */
  lemma {:induction false} RetryIsLeast(steps: seq<Step>, l: Limits, now: real, r: int)
    requires LimitsOk(l)
    requires Admit(Run(steps, l).state, now, l).1.RateLimited?
    ensures var (k, v) := Admit(Run(steps, l).state, now, l);
      RatePasses(k.requests, now + r as real, l) <==> r >= v.retry
  {
    DequeIsShort(steps, l);
    hide Run, Admit, RatePasses;
    RetryOfState(Run(steps, l).state, now, l, r);
  }

  // ---- Exactly how much the bound holds ------------------------------------

  /** The interval of length `d` from `x` on holds at most `max_requests` admissions. */
  ghost predicate FewFrom(steps: seq<Step>, l: Limits, x: real, d: real)
    requires LimitsOk(l)
  {
    var a := Run(steps, l).admitted;
    |set i: nat | i < |a| && x <= a[i] < x + d| <= l.maxRequests
  }

  /** Intervals of length `d` are bounded in all histories whose readings lag at most so. */
  ghost predicate Bounds(l: Limits, lag: real, d: real)
    requires LimitsOk(l)
  {
    forall steps, x :: NoReset(steps) && Lagging(Clocks(steps), lag) ==> FewFrom(steps, l, x, d)
  }

  /** `n` windows' time before zero, counted down from `max_concurrent`. */
  function HeldAt(n: nat, l: Limits): real
    requires n <= l.maxConcurrent
    decreases l.maxConcurrent - n
  {
    if n == l.maxConcurrent then 0.0 else HeldAt(n + 1, l) - l.windowSeconds as real
  }

  /** `n` leases taken one window apart and kept, the last of `max_concurrent` one window
      before time zero. */
  function Held(n: nat, l: Limits): seq<Step>
    requires n <= l.maxConcurrent
  {
    if n == 0 then [] else Held(n - 1, l) + [AcquireAt(HeldAt(n - 1, l))]
  }

  /** After that, `n` times: give the newest lease back and take another at time zero. */
  function Renewed(n: nat, l: Limits): seq<Step>
    requires LimitsOk(l)
  {
    if n == 0 then Held(l.maxConcurrent, l)
    else Renewed(n - 1, l) + [ReleaseLease(l.maxConcurrent + n - 2)] + [AcquireAt(0.0)]
  }

  /** A request one window later finds no slot, but empties the deque; once a slot is free,
      a reading that lags behind it is admitted. */
  function Late(l: Limits, lag: real): seq<Step>
    requires LimitsOk(l)
  {
    var w := l.windowSeconds as real;
    Renewed(l.maxRequests, l)
      + [AcquireAt(w)] + [ReleaseLease(l.maxConcurrent + l.maxRequests - 1)] + [AcquireAt(w - lag)]
  }

  lemma RunAppend(steps: seq<Step>, s: Step, l: Limits)
    requires LimitsOk(l)
    ensures Run(steps + [s], l) == Do(Run(steps, l), s, l)
    ensures Clocks(steps + [s]) == if s.AcquireAt? then Clocks(steps) + [s.now] else Clocks(steps)
    ensures NoReset(steps + [s]) <==> NoReset(steps) && !s.ResetAll?
  {
    var all := steps + [s];
    assert all[..|all| - 1] == steps && Clocks(steps) + [] == Clocks(steps);
    if NoReset(all) { assert forall i :: 0 <= i < |steps| ==> all[i] == steps[i]; }
  }

  /** All readings lie at or before `t`, in order. */
  ghost predicate UpTo(ts: seq<real>, t: real) {
    Ascending(ts) && forall i :: 0 <= i < |ts| ==> ts[i] <= t
  }

  lemma UpToNext(ts: seq<real>, t: real, u: real)
    requires UpTo(ts, t) && t <= u
    ensures UpTo(ts, u) && UpTo(ts + [u], u)
  { }

  lemma Grants(h: History, now: real, kept: seq<real>, l: Limits)
    requires LimitsOk(l) && Prune(h.state.requests, now - l.windowSeconds as real) == kept
    requires |kept| < l.maxRequests && h.state.active < l.maxConcurrent
    ensures Do(h, AcquireAt(now), l)
      == History(KeyState(kept + [now], h.state.active + 1), h.released + [false], h.admitted + [now])
  { }

  lemma FindsNoSlot(h: History, now: real, l: Limits)
    requires LimitsOk(l) && Prune(h.state.requests, now - l.windowSeconds as real) == []
    requires h.state.active == l.maxConcurrent
    ensures Do(h, AcquireAt(now), l) == h.(state := KeyState([], h.state.active))
  { }

  /** As many leases are out as there may be, and the newest is one of them. */
  ghost predicate Full(h: History, l: Limits) {
    h.state.active == l.maxConcurrent && |h.released| == |h.admitted| > 0 && !h.released[|h.released| - 1]
  }

  lemma Frees(h: History, l: Limits)
    requires LimitsOk(l) && Full(h, l)
    ensures var n := |h.released| - 1;
      Do(h, ReleaseLease(n), l)
        == History(KeyState(h.state.requests, l.maxConcurrent - 1), h.released[n := true], h.admitted)
  { }

  lemma {:induction false} PruneAll(requests: seq<real>, cutoff: real)
    requires forall i :: 0 <= i < |requests| ==> requests[i] <= cutoff
    ensures Prune(requests, cutoff) == []
  {
    if requests != [] { PruneAll(requests[1..], cutoff); }
  }

  lemma PruneNone(requests: seq<real>, cutoff: real)
    requires requests == [] || requests[0] > cutoff
    ensures Prune(requests, cutoff) == requests
  { }

  ghost predicate HeldOk(n: nat, l: Limits)
    requires LimitsOk(l) && n <= l.maxConcurrent
  {
    var h, w := Run(Held(n, l), l), l.windowSeconds as real;
    && h.state.active == n == |h.released| == |h.admitted|
    && h.state.requests == (if n == 0 then [] else [HeldAt(n - 1, l)])
    && (n > 0 ==> !h.released[n - 1])
    && NoReset(Held(n, l)) && UpTo(Clocks(Held(n, l)), HeldAt(n, l) - w)
  }

  lemma {:induction false} HeldRuns(n: nat, l: Limits)
    requires LimitsOk(l) && n <= l.maxConcurrent
    ensures HeldOk(n, l)
  {
    if n > 0 {
      HeldRuns(n - 1, l);
      HeldNext(n, l);
    }
  }

  lemma HeldNext(n: nat, l: Limits)
    requires LimitsOk(l) && 0 < n <= l.maxConcurrent && HeldOk(n - 1, l)
    ensures HeldOk(n, l)
  {
    hide Run, Do, Clocks, NoReset, UpTo, Prune;
    var t, w := HeldAt(n - 1, l), l.windowSeconds as real;
    var h := Run(Held(n - 1, l), l);
    assert t == HeldAt(n, l) - w && (n > 1 ==> HeldAt(n - 2, l) == t - w);
    assert Held(n, l) == Held(n - 1, l) + [AcquireAt(t)];
    hide Held, HeldAt;
    RunAppend(Held(n - 1, l), AcquireAt(t), l);
    UpToNext(Clocks(Held(n - 1, l)), t - w, t);
    PruneAll(h.state.requests, t - w);
    Grants(h, t, [], l);
    assert [] + [t] == [t];
  }

  function Zeros(n: nat): seq<real> { seq(n, _ => 0.0) }

  ghost predicate RenewedOk(n: nat, l: Limits)
    requires LimitsOk(l)
  {
    var h := Run(Renewed(n, l), l);
    && Full(h, l) && |h.admitted| == l.maxConcurrent + n
    && h.state.requests == (if n == 0 then [-(l.windowSeconds as real)] else Zeros(n))
    && h.admitted[l.maxConcurrent..] == Zeros(n)
    && NoReset(Renewed(n, l)) && UpTo(Clocks(Renewed(n, l)), 0.0)
  }

  lemma HeldIsRenewed(l: Limits)
    requires LimitsOk(l)
    ensures RenewedOk(0, l)
  {
    var c, w := l.maxConcurrent, l.windowSeconds as real;
    HeldRuns(c, l);
    assert HeldAt(c, l) == 0.0 && HeldAt(c - 1, l) == -w;
    UpToNext(Clocks(Held(c, l)), -w, 0.0);
    hide Run, Clocks, Held, NoReset;
    assert Renewed(0, l) == Held(c, l);
  }

  lemma {:induction false} RenewedRuns(n: nat, l: Limits)
    requires LimitsOk(l) && n <= l.maxRequests
    ensures RenewedOk(n, l)
  {
    if n == 0 {
      HeldIsRenewed(l);
    } else {
      RenewedRuns(n - 1, l);
      RenewedNext(n, l);
    }
  }

  lemma RenewedNext(n: nat, l: Limits)
    requires LimitsOk(l) && 0 < n <= l.maxRequests && RenewedOk(n - 1, l)
    ensures RenewedOk(n, l)
  {
    hide Run, Do, Clocks, Renewed, NoReset, UpTo, Prune, Zeros;
    var c, w := l.maxConcurrent, l.windowSeconds as real;
    var s0 := Renewed(n - 1, l);
    var s1 := s0 + [ReleaseLease(c + n - 2)];
    RenewedStep(n, l);
    UpToNext(Clocks(s0), 0.0, 0.0);
    RunAppend(s0, ReleaseLease(c + n - 2), l);
    RunAppend(s1, AcquireAt(0.0), l);
    var h := Run(s0, l);
    Frees(h, l);
    ZerosStep(n);
    ZerosAre(n - 1);
    if n == 1 { PruneAll(h.state.requests, 0.0 - w); } else { PruneNone(h.state.requests, 0.0 - w); }
    var kept := if n == 1 then [] else Zeros(n - 1);
    Grants(Run(s1, l), 0.0, kept, l);
    TailAppend(h.admitted, c, 0.0);
  }

  lemma RenewedStep(n: nat, l: Limits)
    requires LimitsOk(l) && n > 0
    ensures Renewed(n, l) == Renewed(n - 1, l) + [ReleaseLease(l.maxConcurrent + n - 2)] + [AcquireAt(0.0)]
  { }

  lemma ZerosStep(n: nat)
    requires n > 0
    ensures Zeros(n - 1) + [0.0] == Zeros(n) && Zeros(0) == []
    ensures (if n == 1 then [] else Zeros(n - 1)) + [0.0] == Zeros(n)
  { }

  lemma ZerosAre(n: nat)
    ensures |Zeros(n)| == n && forall i :: 0 <= i < n ==> Zeros(n)[i] == 0.0
  { }

  lemma TailAppend(a: seq<real>, c: nat, x: real)
    requires c <= |a|
    ensures (a + [x])[c..] == a[c..] + [x]
  { }

  lemma LateRuns(l: Limits, lag: real)
    requires LimitsOk(l) && 0.0 <= lag <= l.windowSeconds as real
    ensures var a, c := Run(Late(l, lag), l).admitted, l.maxConcurrent;
      |a| == c + l.maxRequests + 1 && a[c..] == Zeros(l.maxRequests) + [l.windowSeconds as real - lag]
    ensures NoReset(Late(l, lag)) && Lagging(Clocks(Late(l, lag)), lag)
  {
    hide Run, Do, Clocks, Renewed, NoReset, UpTo, Lagging, Prune, Zeros;
    var w, last := l.windowSeconds as real, l.maxConcurrent + l.maxRequests - 1;
    RenewedRuns(l.maxRequests, l);
    var s0 := Renewed(l.maxRequests, l);
    var s1 := s0 + [AcquireAt(w)];
    var s2 := s1 + [ReleaseLease(last)];
    LagOfLate(Clocks(s0), w, lag);
    LateIs(l, lag);
    hide Late;
    ZerosAre(l.maxRequests);
    RunAppend(s0, AcquireAt(w), l);
    RunAppend(s1, ReleaseLease(last), l);
    RunAppend(s2, AcquireAt(w - lag), l);
    var h := Run(s0, l);
    PruneAll(h.state.requests, w - w);
    FindsNoSlot(h, w, l);
    Frees(Run(s1, l), l);
    PruneNone([], (w - lag) - w);
    Grants(Run(s2, l), w - lag, [], l);
    TailAppend(h.admitted, l.maxConcurrent, w - lag);
  }

  lemma LateIs(l: Limits, lag: real)
    requires LimitsOk(l)
    ensures var w := l.windowSeconds as real;
      Late(l, lag) == Renewed(l.maxRequests, l)
        + [AcquireAt(w)] + [ReleaseLease(l.maxConcurrent + l.maxRequests - 1)] + [AcquireAt(w - lag)]
  { }

  lemma LagOfLate(ts: seq<real>, w: real, lag: real)
    requires UpTo(ts, 0.0) && 0.0 <= lag <= w
    ensures Lagging(ts + [w] + [w - lag], lag)
  { }

  /** With any lag, one interval just longer than the window less the lag holds one
      admission too many. */
  lemma LateIsTooMany(l: Limits, lag: real, d: real)
    requires LimitsOk(l) && 0.0 <= lag <= l.windowSeconds as real && d > l.windowSeconds as real - lag
    ensures !FewFrom(Late(l, lag), l, 0.0, d)
  {
    LateRuns(l, lag);
    var a, c, m := Run(Late(l, lag), l).admitted, l.maxConcurrent, l.maxRequests;
    forall i | c <= i < c + m + 1 ensures 0.0 <= a[i] < d { assert a[i] == a[c..][i - c]; }
    var close := set i: nat | i < |a| && 0.0 <= a[i] < 0.0 + d;
    SubsetAtLeast(close, c, c + m + 1);
  }

  lemma {:induction false} SubsetAtLeast(s: set<nat>, a: nat, b: nat)
    requires a <= b && forall i: nat :: a <= i < b ==> i in s
    ensures |s| >= b - a
  {
    if a < b { SubsetAtLeast(s - {b - 1}, a, b - 1); }
  }

  lemma {:induction false} SubsetCount(s: set<nat>, t: set<nat>)
    requires s <= t
    ensures |s| <= |t|
    decreases s
  {
    if s != {} {
      var x :| x in s;
      SubsetCount(s - {x}, t - {x});
    }
  }

  /** Over all histories whose readings lag at most by `lag`, intervals of a length hold at
      most `max_requests` admissions exactly when that length is at most the window less
      the lag (or the interval is empty). */
  lemma BoundsExactly(l: Limits, lag: real, d: real)
    requires LimitsOk(l) && lag >= 0.0
    ensures Bounds(l, lag, d) <==> d <= 0.0 || d <= l.windowSeconds as real - lag
  {
    var w := l.windowSeconds as real;
    if d <= 0.0 {
      forall steps, x ensures FewFrom(steps, l, x, d) {
        var a := Run(steps, l).admitted;
        assert (set i: nat | i < |a| && x <= a[i] < x + d) == {};
      }
    } else if d <= w - lag {
      forall steps, x | NoReset(steps) && Lagging(Clocks(steps), lag) ensures FewFrom(steps, l, x, d) {
        RateBound(steps, l, lag, x);
        var a := Run(steps, l).admitted;
        SubsetCount(set i: nat | i < |a| && x <= a[i] < x + d, set i: nat | i < |a| && x <= a[i] < x + (w - lag));
      }
    } else {
      var late := if lag <= w then lag else w;
      LateRuns(l, late);
      LateIsTooMany(l, late, d);
      LagGrows(Clocks(Late(l, late)), late, lag);
      hide Run, FewFrom, Lagging, Clocks, Late;
    }
  }

  lemma LagGrows(ts: seq<real>, lag: real, more: real)
    requires Lagging(ts, lag) && lag <= more
    ensures Lagging(ts, more)
  { }

  ghost predicate CountRight(steps: seq<Step>, l: Limits)
    requires LimitsOk(l)
  {
    Run(steps, l).state.active == Unreleased(Run(steps, l).released)
  }

  ghost predicate NoneOut(steps: seq<Step>, l: Limits)
    requires LimitsOk(l)
  {
    Unreleased(Run(steps, l).released) == 0
  }

  lemma CountStep(steps: seq<Step>, l: Limits)
    requires LimitsOk(l) && steps != [] && CountRight(steps[..|steps| - 1], l)
    ensures CountRight(steps, l) <==> (steps[|steps| - 1].ResetAll? ==> NoneOut(steps[..|steps| - 1], l))
  {
    var k := |steps| - 1; var s := steps[k];
    var h := Run(steps[..k], l);
    assert (h.released + [false])[..|h.released|] == h.released;
    if s.ReleaseLease? && s.lease < |h.released| && !h.released[s.lease] { UnreleasedUpdate(h.released, s.lease); }
  }

  ghost predicate AlwaysRight(steps: seq<Step>, l: Limits)
    requires LimitsOk(l)
  {
    forall n :: 0 <= n <= |steps| ==> CountRight(steps[..n], l)
  }

  /** Each `reset` of the history happens while no lease is out. */
  ghost predicate ResetsWhenFree(steps: seq<Step>, l: Limits)
    requires LimitsOk(l)
  {
    forall n :: 0 <= n < |steps| && steps[n].ResetAll? ==> NoneOut(steps[..n], l)
  }

  lemma AlwaysRightStep(steps: seq<Step>, l: Limits)
    requires LimitsOk(l) && steps != []
    ensures AlwaysRight(steps, l) <==> AlwaysRight(steps[..|steps| - 1], l) && CountRight(steps, l)
  {
    hide CountRight;
    var k := |steps| - 1;
    assert steps[..|steps|] == steps;
    assert forall n :: 0 <= n <= k ==> steps[..k][..n] == steps[..n];
  }

  lemma ResetsWhenFreeStep(steps: seq<Step>, l: Limits)
    requires LimitsOk(l) && steps != []
    ensures var k := |steps| - 1;
      ResetsWhenFree(steps, l) <==>
        ResetsWhenFree(steps[..k], l) && (steps[k].ResetAll? ==> NoneOut(steps[..k], l))
  {
    hide NoneOut;
    var k := |steps| - 1;
    assert forall n :: 0 <= n < k ==> steps[..k][..n] == steps[..n] && steps[..k][n] == steps[n];
  }

  /** The counter is right after every prefix of a history exactly when each `reset` in it
      happens while no lease is out. */
  lemma {:induction false} CountExactly(steps: seq<Step>, l: Limits)
    requires LimitsOk(l)
    ensures AlwaysRight(steps, l) <==> ResetsWhenFree(steps, l)
  {
    if steps == [] {
      assert steps[..0] == [];
    } else {
      var k := |steps| - 1;
      CountExactly(steps[..k], l);
      assert AlwaysRight(steps[..k], l) ==> CountRight(steps[..k], l) by { assert steps[..k][..k] == steps[..k]; }
      if CountRight(steps[..k], l) { CountStep(steps, l); }
      AlwaysRightStep(steps, l);
      ResetsWhenFreeStep(steps, l);
      hide CountRight, NoneOut, AlwaysRight, ResetsWhenFree;
    }
  }

  // ---- Where the bound needs its hypotheses --------------------------------

  const ONE_PER_TEN := Limits(1, 10, 1)

  /** `acquire` reads the clock before it takes the lock. Readings out of lock order break
      the bound: with one request per ten seconds, two are admitted nine seconds apart,
      with a lag of one second. */
  lemma LateLockBreaksBound()
    ensures var steps := [AcquireAt(0.0), AcquireAt(10.0), ReleaseLease(0), AcquireAt(9.0)];
      Run(steps, ONE_PER_TEN).admitted == [0.0, 9.0] && !Ascending(Clocks(steps)) && Lagging(Clocks(steps), 1.0)
  {
    var a, b, c, d := AcquireAt(0.0), AcquireAt(10.0), ReleaseLease(0), AcquireAt(9.0);
    var l := ONE_PER_TEN;
    assert [a, b, c, d][..3] == [a, b, c] && [a, b, c][..2] == [a, b] && [a, b][..1] == [a] && [a][..0] == [];
    assert Run([a], l) == History(KeyState([0.0], 1), [false], [0.0]);
    assert [0.0][1..] == [];
    assert Run([a, b], l) == History(KeyState([], 1), [false], [0.0]);
    assert Run([a, b, c], l) == History(KeyState([], 0), [true], [0.0]);
    assert Clocks([a]) == [0.0] && Clocks([a, b]) == [0.0, 10.0] && Clocks([a, b, c]) == [0.0, 10.0];
    assert Clocks([a, b, c, d]) == [0.0, 10.0, 9.0];
    assert [0.0, 10.0, 9.0][1] > [0.0, 10.0, 9.0][2];
  }

  /** `reset` forgets leases that are still out; releasing one afterwards hides another. */
  lemma ResetBreaksCount()
    ensures var h := Run([AcquireAt(0.0), ResetAll, AcquireAt(0.0), ReleaseLease(0)], ONE_PER_TEN);
      h.state.active == 0 && Unreleased(h.released) == 1
  {
    var a, b, c, d := AcquireAt(0.0), ResetAll, AcquireAt(0.0), ReleaseLease(0);
    var l := ONE_PER_TEN;
    assert [a, b, c, d][..3] == [a, b, c] && [a, b, c][..2] == [a, b] && [a, b][..1] == [a] && [a][..0] == [];
    assert Run([a], l) == History(KeyState([0.0], 1), [false], [0.0]);
    assert Run([a, b], l) == History(KeyState([], 0), [false], [0.0]);
    assert Run([a, b, c], l) == History(KeyState([0.0], 1), [false, false], [0.0, 0.0]);
    assert Run([a, b, c, d], l) == History(KeyState([0.0], 0), [true, false], [0.0, 0.0]);
    assert [true, false][..1] == [true] && [true][..0] == [];
    assert Unreleased([true]) == 0;
  }
}
