/** How many requests the rate limiter lets through: by key, by the time at which they read
    the clock, and by the time at which they were counted. Late requests are included. */
module LimiterBounds {
  import opened Arithmetic
  import opened MachineTypes
  import opened Sequences
  import opened RateLimit

  // ---- One key -----------------------------------------------------------

  function Min(x: int, y: int): int {
    if x < y then x else y
  }

  /** Requests for the key that were let through, in whatever way. */
  function LetThrough(cfg: Config, log: seq<Request>, key: Key): nat
    requires cfg.Valid()
  {
    if log == [] then 0
    else
      var r := log[|log| - 1];
      LetThrough(cfg, log[..|log| - 1], key) + One(KeyOf(cfg, r) == key && r.allowed)
  }

  /** Those of them that were judged. */
  function JudgedThrough(cfg: Config, log: seq<Request>, key: Key): nat
    requires cfg.Valid()
  {
    if log == [] then 0
    else
      var r := log[|log| - 1];
      JudgedThrough(cfg, log[..|log| - 1], key) + One(KeyOf(cfg, r) == key && r.judged && r.allowed)
  }

  /** Requests behind the key's first `limit` that passed because the store failed. */
  function UnjudgedBeyond(cfg: Config, log: seq<Request>, key: Key): nat
    requires cfg.Valid()
  {
    if log == [] then 0
    else
      var r := log[|log| - 1];
      UnjudgedBeyond(cfg, log[..|log| - 1], key)
      + One(KeyOf(cfg, r) == key && !r.judged && CountFor(cfg, log, key) > cfg.Cap())
  }

  lemma ThroughAppend(cfg: Config, log: seq<Request>, r: Request, key: Key)
    requires cfg.Valid()
    ensures LetThrough(cfg, log + [r], key) == LetThrough(cfg, log, key) + One(KeyOf(cfg, r) == key && r.allowed)
    ensures JudgedThrough(cfg, log + [r], key) == JudgedThrough(cfg, log, key) + One(KeyOf(cfg, r) == key && r.judged && r.allowed)
    ensures UnjudgedBeyond(cfg, log + [r], key) ==
      UnjudgedBeyond(cfg, log, key) + One(KeyOf(cfg, r) == key && !r.judged && CountFor(cfg, log, key) + 1 > cfg.Cap())
  {
    TakeOfAppend(log, r);
    CountForAppend(cfg, log, r, key);
    hide CountFor, KeyOf;
  }

  /** The limit has some effect only on keys that are in time; a limit below 1 always has. */
  predicate Governed(cfg: Config, acts: seq<Action>, key: Key)
    requires cfg.Valid()
  {
    cfg.limit < 1 || InTime(cfg, acts, key)
  }

  /** While the key is in time: the first `limit` requests are let through, and beyond them
      only those that were not judged. Otherwise at least one too many, if there were as
      many at all. */
  ghost predicate LimitRight(cfg: Config, acts: seq<Action>, log: seq<Request>, key: Key)
    requires cfg.Valid()
  {
    var n, through, beyond := CountFor(cfg, log, key), LetThrough(cfg, log, key), UnjudgedBeyond(cfg, log, key);
    && through <= n && (n <= cfg.Cap() ==> beyond == 0)
    && if Governed(cfg, acts, key) then
         through == Min(n, cfg.Cap()) + beyond && JudgedThrough(cfg, log, key) <= Min(n, cfg.Cap())
       else
         through >= Min(n, cfg.Cap() + 1)
  }

  /** What the counter shows the request. */
  lemma CountShown(cfg: Config, acts: seq<Action>, s: State, key: Key)
    requires cfg.Valid() && acts != [] && EntryRight(cfg, acts[..|acts| - 1], s, key)
    requires CountsKey(cfg, acts[|acts| - 1], Clock(acts[..|acts| - 1]), key)
    ensures var front, n := acts[..|acts| - 1], CountFor(cfg, s.log, key);
      var shown := if Live(s, key) then s.store[key].count + 1 else 1;
      && 1 <= shown <= n + 1
      && (InTime(cfg, acts, key) ==> shown == n + 1 && InTime(cfg, front, key))
      && (!InTime(cfg, acts, key) ==> if InTime(cfg, front, key) then shown == 1 else shown <= n)
  {
    hide CountFor, Config.WindowOf, Config.Length;
  }

  lemma CountLimitRight(cfg: Config, acts: seq<Action>, s: State, key: Key)
    requires cfg.Valid() && acts != [] && acts[|acts| - 1].Count?
    requires EntryRight(cfg, acts[..|acts| - 1], s, key) && LimitRight(cfg, acts[..|acts| - 1], s.log, key)
    ensures LimitRight(cfg, acts, Do(cfg, s, acts[|acts| - 1]).log, key)
  {
    hide CountFor, LetThrough, JudgedThrough, UnjudgedBeyond, EntryRight, InTime, Config.WindowOf, Live;
    var a, front := acts[|acts| - 1], acts[..|acts| - 1];
    var r := Do(cfg, s, a).log[|s.log|];
    ThroughAppend(cfg, s.log, r, key);
    CountForAppend(cfg, s.log, r, key);
    EntryClock(cfg, front, s, key);
    if CountsKey(cfg, a, Clock(front), key) {
      CountShown(cfg, acts, s, key);
    } else {
      ForeignInTime(cfg, acts, key);
    }
  }

  lemma EntryClock(cfg: Config, acts: seq<Action>, s: State, key: Key)
    requires cfg.Valid() && EntryRight(cfg, acts, s, key)
    ensures s.now == Clock(acts)
  {
  }

  lemma ForeignInTime(cfg: Config, acts: seq<Action>, key: Key)
    requires cfg.Valid() && acts != [] && !CountsKey(cfg, acts[|acts| - 1], Clock(acts[..|acts| - 1]), key)
    ensures InTime(cfg, acts, key) == InTime(cfg, acts[..|acts| - 1], key)
  {
  }

  lemma {:induction false} AlwaysLimitRight(cfg: Config, acts: seq<Action>, key: Key)
    requires cfg.Valid()
    ensures LimitRight(cfg, acts, Run(cfg, acts).log, key)
  {
    if acts != [] {
      var front, a := acts[..|acts| - 1], acts[|acts| - 1];
      AlwaysLimitRight(cfg, front, key);
      AlwaysEntryRight(cfg, front, key);
      assert Run(cfg, acts) == Do(cfg, Run(cfg, front), a);
      if a.Count? {
        hide Run, Do, EntryRight, LimitRight;
        CountLimitRight(cfg, acts, Run(cfg, front), key);
      } else {
        ForeignInTime(cfg, acts, key);
        hide Run, InTime, CountFor, LetThrough, JudgedThrough, UnjudgedBeyond, EntryRight;
      }
    }
  }

  /** Is the key's limit kept? Too few requests to matter; or none was counted at or after
      the time when the key went, and none passed unjudged behind the first `limit`. */
  predicate LimitKept(cfg: Config, acts: seq<Action>, key: Key)
    requires cfg.Valid()
  {
    Counted(cfg, acts, key) <= cfg.Cap()
    || (Governed(cfg, acts, key) && UnjudgedBeyond(cfg, Run(cfg, acts).log, key) == 0)
  }

  /** Of all requests for a key, late ones included, at most `limit` are let through if and
      only if its limit is kept in this sense. While the key is in time these are its first
      `limit` requests, and those that were never judged. */
  lemma KeyLimitExactly(cfg: Config, acts: seq<Action>, key: Key)
    requires cfg.Valid()
    ensures LetThrough(cfg, Run(cfg, acts).log, key) <= cfg.Cap() <==> LimitKept(cfg, acts, key)
    ensures Governed(cfg, acts, key) ==>
      LetThrough(cfg, Run(cfg, acts).log, key) == Min(Counted(cfg, acts, key), cfg.Cap()) + UnjudgedBeyond(cfg, Run(cfg, acts).log, key)
  {
    AlwaysLimitRight(cfg, acts, key);
    AlwaysEntryRight(cfg, acts, key);
    hide Run, Counted, CountFor, LetThrough, UnjudgedBeyond, JudgedThrough, Governed;
  }

  // ---- By the time at which the clock was read ---------------------------

  /** A client's requests that read the clock at a time in [from, to) and were let through. */
  function ReadBetween(log: seq<Request>, client: string, from: nat, to: nat): nat {
    if log == [] then 0
    else
      var r := log[|log| - 1];
      ReadBetween(log[..|log| - 1], client, from, to) + One(r.client == client && r.allowed && from <= r.readAt < to)
  }

  lemma {:induction false} ReadInTwoWindows(cfg: Config, log: seq<Request>, client: string, from: nat)
    requires cfg.Valid()
    ensures var w := cfg.WindowOf(from);
      ReadBetween(log, client, from, from + cfg.Length()) <=
        LetThrough(cfg, log, Key(client, w)) + LetThrough(cfg, log, Key(client, w + 1))
  {
    if log != [] {
      var r := log[|log| - 1];
      ReadInTwoWindows(cfg, log[..|log| - 1], client, from);
      if from <= r.readAt < from + cfg.Length() { TwoWindows(cfg, from, r.readAt); }
      hide Config.WindowOf, Config.Length;
    }
  }

  /** Of all requests that read the clock within a stretch one window long, at most twice
      the limit are let through when the two windows' limits are kept. */
  lemma ReadIntervalTwiceLimit(cfg: Config, acts: seq<Action>, client: string, from: nat)
    requires cfg.Valid()
    ensures var w := cfg.WindowOf(from);
      LimitKept(cfg, acts, Key(client, w)) && LimitKept(cfg, acts, Key(client, w + 1)) ==>
        ReadBetween(Run(cfg, acts).log, client, from, from + cfg.Length()) <= 2 * cfg.Cap()
  {
    var w := cfg.WindowOf(from);
    ReadInTwoWindows(cfg, Run(cfg, acts).log, client, from);
    KeyLimitExactly(cfg, acts, Key(client, w));
    KeyLimitExactly(cfg, acts, Key(client, w + 1));
  }

  // ---- By the time of counting -------------------------------------------

  predicate CountedIn(r: Request, client: string, from: nat, to: nat) {
    r.client == client && r.judged && r.allowed && from <= r.countedAt < to
  }

  /** A client's judged requests that were counted at a time in [from, to) and let through. */
  function CountedBetween(log: seq<Request>, client: string, from: nat, to: nat): nat {
    if log == [] then 0
    else CountedBetween(log[..|log| - 1], client, from, to) + One(CountedIn(log[|log| - 1], client, from, to))
  }

  lemma CountedBetweenAppend(log: seq<Request>, r: Request, client: string, from: nat, to: nat)
    ensures CountedBetween(log + [r], client, from, to) ==
      CountedBetween(log, client, from, to) + One(CountedIn(r, client, from, to))
  {
    TakeOfAppend(log, r);
  }

  /** Those of one run within one window's length. */
  function Through(cfg: Config, acts: seq<Action>, client: string, from: nat): nat
    requires cfg.Valid()
  {
    CountedBetween(Run(cfg, acts).log, client, from, from + cfg.Length())
  }

  /** No request is counted more than `delay` ticks after it read the clock. */
  ghost predicate Prompt(acts: seq<Action>, delay: nat) {
    forall i :: 0 <= i < |acts| && acts[i].Count? ==> acts[i].age <= delay
  }

  lemma PromptFront(acts: seq<Action>, delay: nat)
    requires acts != [] && Prompt(acts, delay)
    ensures Prompt(acts[..|acts| - 1], delay)
    ensures acts[|acts| - 1].Count? ==> acts[|acts| - 1].age <= delay
  {
  }

  /** What the limiter is meant to promise about any run with no longer delays. */
  ghost predicate IntervalsHold(cfg: Config, delay: nat, client: string)
    requires cfg.Valid()
  {
    forall acts: seq<Action>, from: nat :: Prompt(acts, delay) ==> Through(cfg, acts, client, from) <= 2 * cfg.Cap()
  }

  /** Delays that never break the bound. */
  predicate Harmless(cfg: Config, delay: nat) {
    cfg.limit < 1 || delay == 0 || (delay == 1 && (cfg.limit == 1 || cfg.Length() == 1))
  }

  // ---- No delay, or a limit of none --------------------------------------

  ghost predicate PromptLog(log: seq<Request>, delay: nat) {
    forall i :: 0 <= i < |log| ==> log[i].countedAt - delay <= log[i].readAt <= log[i].countedAt
  }

  lemma {:induction false} AlwaysPrompt(cfg: Config, acts: seq<Action>, delay: nat)
    requires cfg.Valid() && Prompt(acts, delay)
    ensures PromptLog(Run(cfg, acts).log, delay)
  {
    if acts != [] {
      var s, a := Run(cfg, acts[..|acts| - 1]), acts[|acts| - 1];
      PromptFront(acts, delay);
      AlwaysPrompt(cfg, acts[..|acts| - 1], delay);
      assert Run(cfg, acts) == Do(cfg, s, a);
      hide Run, Prompt, Live, Config.WindowOf;
    }
  }

  lemma {:induction false} NoDelayIsTimely(cfg: Config, log: seq<Request>, client: string, from: nat, to: nat)
    requires cfg.Valid() && PromptLog(log, 0)
    ensures CountedBetween(log, client, from, to) == AllowedBetween(cfg, log, client, from, to)
  {
    if log != [] {
      assert log[|log| - 1].countedAt == log[|log| - 1].readAt;
      NoDelayIsTimely(cfg, log[..|log| - 1], client, from, to);
      hide Config.WindowOf;
    }
  }

  lemma StepNoneJudged(cfg: Config, s: State, a: Action, client: string, from: nat, to: nat)
    requires cfg.Valid() && cfg.limit < 1 && CountedBetween(s.log, client, from, to) == 0
    ensures CountedBetween(Do(cfg, s, a).log, client, from, to) == 0
  {
    if a.Count? {
      hide Live, Config.WindowOf;
      CountedBetweenAppend(s.log, DoCount(cfg, s, a.client, ReadAt(s.now, a.age), a.judged).log[|s.log|], client, from, to);
      hide CountedBetween;
    }
  }

  lemma {:induction false} NoneJudged(cfg: Config, acts: seq<Action>, client: string, from: nat, to: nat)
    requires cfg.Valid() && cfg.limit < 1
    ensures CountedBetween(Run(cfg, acts).log, client, from, to) == 0
  {
    if acts != [] {
      var s, a := Run(cfg, acts[..|acts| - 1]), acts[|acts| - 1];
      NoneJudged(cfg, acts[..|acts| - 1], client, from, to);
      assert Run(cfg, acts) == Do(cfg, s, a);
      hide Run, Do, CountedBetween;
      StepNoneJudged(cfg, s, a, client, from, to);
    }
  }

  // ---- A delay of one tick -----------------------------------------------

  /** Judged requests for the key that were let through at one time. */
  function AtInstant(cfg: Config, log: seq<Request>, key: Key, t: nat): nat
    requires cfg.Valid()
  {
    if log == [] then 0
    else
      var r := log[|log| - 1];
      AtInstant(cfg, log[..|log| - 1], key, t) + One(KeyOf(cfg, r) == key && CountedIn(r, key.client, t, t + 1))
  }

  lemma AtInstantAppend(cfg: Config, log: seq<Request>, r: Request, key: Key, t: nat)
    requires cfg.Valid()
    ensures AtInstant(cfg, log + [r], key, t) ==
      AtInstant(cfg, log, key, t) + One(KeyOf(cfg, r) == key && CountedIn(r, key.client, t, t + 1))
  {
    TakeOfAppend(log, r);
  }

  /** At one time a key can be gone at most once, before any of its requests. */
  ghost predicate InstantRight(cfg: Config, s: State, key: Key, t: nat)
    requires cfg.Valid()
  {
    var n := AtInstant(cfg, s.log, key, t);
    && n <= cfg.Cap() && (s.now < t ==> n == 0)
    && (s.now == t && n > 0 ==> Live(s, key) && n <= s.store[key].count)
  }

  lemma CountInstantRight(cfg: Config, s: State, client: string, readAt: nat, judged: bool, key: Key, t: nat)
    requires cfg.Valid() && InstantRight(cfg, s, key, t)
    ensures InstantRight(cfg, DoCount(cfg, s, client, readAt, judged), key, t)
  {
    AtInstantAppend(cfg, s.log, DoCount(cfg, s, client, readAt, judged).log[|s.log|], key, t);
    hide AtInstant, Config.WindowOf;
  }

  lemma StepInstantRight(cfg: Config, s: State, a: Action, key: Key, t: nat)
    requires cfg.Valid() && InstantRight(cfg, s, key, t)
    ensures InstantRight(cfg, Do(cfg, s, a), key, t)
  {
    hide AtInstant, Config.WindowOf, Config.Length;
    if a.Count? {
      hide DoCount, InstantRight;
      CountInstantRight(cfg, s, a.client, ReadAt(s.now, a.age), a.judged, key, t);
    }
  }

  lemma {:induction false} InstantLimit(cfg: Config, acts: seq<Action>, key: Key, t: nat)
    requires cfg.Valid()
    ensures InstantRight(cfg, Run(cfg, acts), key, t)
  {
    if acts != [] {
      var s, a := Run(cfg, acts[..|acts| - 1]), acts[|acts| - 1];
      InstantLimit(cfg, acts[..|acts| - 1], key, t);
      assert Run(cfg, acts) == Do(cfg, s, a);
      hide Run, Do, InstantRight;
      StepInstantRight(cfg, s, a, key, t);
    }
  }

  predicate TimelyIn(cfg: Config, r: Request, key: Key, from: nat)
    requires cfg.Valid()
  {
    TimelyFor(cfg, r, key) && r.judged && r.allowed && from <= r.countedAt
  }

  /** Timely, judged requests for the key that were let through at or after `from`. */
  function TimelyFrom(cfg: Config, log: seq<Request>, key: Key, from: nat): nat
    requires cfg.Valid()
  {
    if log == [] then 0
    else TimelyFrom(cfg, log[..|log| - 1], key, from) + One(TimelyIn(cfg, log[|log| - 1], key, from))
  }

  lemma {:induction false} TimelyFromAtMost(cfg: Config, log: seq<Request>, key: Key, from: nat)
    requires cfg.Valid()
    ensures TimelyFrom(cfg, log, key, from) <= AllowedFor(cfg, log, key)
    ensures TimelyFrom(cfg, log, key, from) <= CountFor(cfg, log, key)
  {
    if log != [] {
      TimelyFromAtMost(cfg, log[..|log| - 1], key, from);
      hide Timely, KeyOf;
    }
  }

  /** The end of the key's window. */
  function EndOf(cfg: Config, key: Key): nat {
    (key.window + 1) * cfg.Length()
  }

  /** With a delay of one tick a request is timely, or counted when its window ends. */
  lemma OneTickLate(cfg: Config, r: Request)
    requires cfg.Valid() && r.countedAt - 1 <= r.readAt <= r.countedAt
    ensures Timely(cfg, r) || r.countedAt == EndOf(cfg, KeyOf(cfg, r))
    ensures Timely(cfg, r) ==> r.countedAt < EndOf(cfg, KeyOf(cfg, r))
  {
    WindowBounds(cfg, r.readAt, cfg.WindowOf(r.readAt));
    WindowBounds(cfg, r.countedAt, cfg.WindowOf(r.readAt));
    WindowGrows(cfg, r.readAt, r.countedAt);
  }

  /** Where a judged request that was let through within the stretch belongs, if the
      stretch begins inside a window. */
  lemma InsideParts(cfg: Config, r: Request, client: string, from: nat)
    requires cfg.Valid() && r.countedAt - 1 <= r.readAt <= r.countedAt
    requires from > cfg.WindowOf(from) * cfg.Length() && CountedIn(r, client, from, from + cfg.Length())
    ensures var key := Key(client, cfg.WindowOf(from));
      var next := Key(client, key.window + 1);
      || TimelyIn(cfg, r, key, from)
      || (KeyOf(cfg, r) == key && CountedIn(r, client, EndOf(cfg, key), EndOf(cfg, key) + 1))
      || (TimelyFor(cfg, r, next) && r.judged && r.allowed)
  {
    var w := cfg.WindowOf(from);
    TwoWindows(cfg, from, r.countedAt);
    OneTickLate(cfg, r);
    WindowGrows(cfg, r.readAt, r.countedAt);
    EndsAfter(cfg, r, w);
    hide Config.WindowOf, Config.Length, EndOf;
  }

  /** A late request of an earlier window than w was counted no later than w began. */
  lemma EndsAfter(cfg: Config, r: Request, w: nat)
    requires cfg.Valid()
    ensures KeyOf(cfg, r).window < w ==> EndOf(cfg, KeyOf(cfg, r)) <= w * cfg.Length()
  {
    MulMonotone(KeyOf(cfg, r).window + 1, w, cfg.Length());
  }

  lemma {:induction false} InsideBound(cfg: Config, log: seq<Request>, client: string, from: nat)
    requires cfg.Valid() && PromptLog(log, 1) && from > cfg.WindowOf(from) * cfg.Length()
    ensures var key := Key(client, cfg.WindowOf(from));
      CountedBetween(log, client, from, from + cfg.Length()) <=
        TimelyFrom(cfg, log, key, from) + AtInstant(cfg, log, key, EndOf(cfg, key)) + AllowedFor(cfg, log, Key(client, key.window + 1))
  {
    if log != [] {
      var r := log[|log| - 1];
      InsideBound(cfg, log[..|log| - 1], client, from);
      if CountedIn(r, client, from, from + cfg.Length()) { InsideParts(cfg, r, client, from); }
      hide Config.WindowOf, Config.Length, EndOf, KeyOf, Timely;
    }
  }

  /** The same for a stretch that is a whole window: the window's own requests, and late ones
      of the window before, counted as it begins. */
  lemma WholeParts(cfg: Config, r: Request, client: string, from: nat)
    requires cfg.Valid() && r.countedAt - 1 <= r.readAt <= r.countedAt
    requires from == cfg.WindowOf(from) * cfg.Length() && CountedIn(r, client, from, from + cfg.Length())
    ensures var key := Key(client, cfg.WindowOf(from));
      || (TimelyFor(cfg, r, key) && r.judged && r.allowed)
      || (key.window > 0 && KeyOf(cfg, r) == Key(client, key.window - 1) && CountedIn(r, client, from, from + 1))
  {
    var w := cfg.WindowOf(from);
    WindowBounds(cfg, r.countedAt, w);
    Distribute(w, 1, cfg.Length());
    OneTickLate(cfg, r);
    WindowGrows(cfg, r.readAt, r.countedAt);
    var v := KeyOf(cfg, r).window;
    MulMonotone(v + 2, w, cfg.Length());
    Distribute(v + 1, 1, cfg.Length());
    EndsAfter(cfg, r, w);
    hide Config.WindowOf, Config.Length;
  }

  lemma {:induction false} WholeBound(cfg: Config, log: seq<Request>, client: string, from: nat)
    requires cfg.Valid() && PromptLog(log, 1) && from == cfg.WindowOf(from) * cfg.Length()
    ensures var w := cfg.WindowOf(from);
      CountedBetween(log, client, from, from + cfg.Length()) <=
        AllowedFor(cfg, log, Key(client, w)) + if w > 0 then AtInstant(cfg, log, Key(client, w - 1), from) else 0
  {
    if log != [] {
      var r := log[|log| - 1];
      WholeBound(cfg, log[..|log| - 1], client, from);
      if CountedIn(r, client, from, from + cfg.Length()) { WholeParts(cfg, r, client, from); }
      hide Config.WindowOf, Config.Length, KeyOf, Timely;
    }
  }

  lemma WholeHolds(cfg: Config, acts: seq<Action>, client: string, from: nat)
    requires cfg.Valid() && Prompt(acts, 1) && from == cfg.WindowOf(from) * cfg.Length()
    ensures Through(cfg, acts, client, from) <= 2 * cfg.Cap()
  {
    hide Run, CountedBetween, AllowedFor, AtInstant, TimelyCount, UnjudgedFor, Config.WindowOf, Config.Length, Prompt;
    var w := cfg.WindowOf(from);
    AlwaysPrompt(cfg, acts, 1);
    WholeBound(cfg, Run(cfg, acts).log, client, from);
    WindowLetsThrough(cfg, acts, Key(client, w));
    if w > 0 { InstantLimit(cfg, acts, Key(client, w - 1), from); }
  }

  // ---- A limit of one ----------------------------------------------------

  /** When the key's first request was counted. */
  function FirstCount(cfg: Config, acts: seq<Action>, key: Key): Option<nat>
    requires cfg.Valid()
  {
    if acts == [] then None
    else
      var front := acts[..|acts| - 1];
      if FirstCount(cfg, front, key).Some? then FirstCount(cfg, front, key)
      else if CountsKey(cfg, acts[|acts| - 1], Clock(front), key) then Some(Clock(front))
      else None
  }

  /** The key goes no sooner than one window after its first request. */
  lemma {:induction false} ExpiryAfterFirst(cfg: Config, acts: seq<Action>, key: Key)
    requires cfg.Valid()
    ensures Counted(cfg, acts, key) > 0 <==> FirstCount(cfg, acts, key).Some?
    ensures FirstCount(cfg, acts, key).Some? ==> FirstCount(cfg, acts, key).value <= Clock(acts)
    ensures Expiry(cfg, acts, key).Some? ==>
      FirstCount(cfg, acts, key).Some? && Expiry(cfg, acts, key).value >= FirstCount(cfg, acts, key).value + cfg.Length()
  {
    if acts != [] {
      ExpiryAfterFirst(cfg, acts[..|acts| - 1], key);
      hide CountsKey, Config.Length;
    }
  }

  /** With a delay of one tick the key can only be gone too early if its first request was
      counted as its window began. */
  lemma {:induction false} LateFirst(cfg: Config, acts: seq<Action>, key: Key)
    requires cfg.Valid() && Prompt(acts, 1) && !InTime(cfg, acts, key)
    ensures FirstCount(cfg, acts, key).Some? && FirstCount(cfg, acts, key).value <= key.window * cfg.Length()
  {
    if acts != [] {
      var front, a := acts[..|acts| - 1], acts[|acts| - 1];
      PromptFront(acts, 1);
      if !InTime(cfg, front, key) {
        LateFirst(cfg, front, key);
        hide Config.Length;
      } else {
        ExpiryAfterFirst(cfg, front, key);
        WindowBounds(cfg, ReadAt(Clock(front), a.age), key.window);
        Distribute(key.window, 1, cfg.Length());
        hide Config.Length, Config.WindowOf, Clock, Expiry;
      }
    }
  }

  /** With a limit of one, nothing timely is let through behind the first request. */
  ghost predicate OnlyFirst(cfg: Config, acts: seq<Action>, log: seq<Request>, key: Key, from: nat)
    requires cfg.Valid()
  {
    FirstCount(cfg, acts, key).Some? && FirstCount(cfg, acts, key).value < from ==> TimelyFrom(cfg, log, key, from) == 0
  }

  lemma TimelyFromAppend(cfg: Config, log: seq<Request>, r: Request, key: Key, from: nat)
    requires cfg.Valid()
    ensures TimelyFrom(cfg, log + [r], key, from) == TimelyFrom(cfg, log, key, from) + One(TimelyIn(cfg, r, key, from))
  {
    TakeOfAppend(log, r);
  }

  lemma CountOnlyFirst(cfg: Config, acts: seq<Action>, s: State, key: Key, from: nat)
    requires cfg.Valid() && cfg.limit == 1 && acts != [] && acts[|acts| - 1].Count?
    requires AllAgree(cfg, s) && EntryRight(cfg, acts[..|acts| - 1], s, key)
    requires OnlyFirst(cfg, acts[..|acts| - 1], s.log, key, from)
    ensures OnlyFirst(cfg, acts, Do(cfg, s, acts[|acts| - 1]).log, key, from)
  {
    var a, front := acts[|acts| - 1], acts[..|acts| - 1];
    var r := DoCount(cfg, s, a.client, ReadAt(s.now, a.age), a.judged).log[|s.log|];
    TimelyFromAppend(cfg, s.log, r, key, from);
    TimelyFromAtMost(cfg, s.log, key, from);
    ExpiryAfterFirst(cfg, front, key);
    CountAgrees(cfg, s, a.client, ReadAt(s.now, a.age), a.judged);
    hide AllAgree, TimelyFrom, CountFor, Counted, Config.WindowOf, InTime, Expiry, Live;
  }

  lemma {:induction false} AlwaysOnlyFirst(cfg: Config, acts: seq<Action>, key: Key, from: nat)
    requires cfg.Valid() && cfg.limit == 1
    ensures OnlyFirst(cfg, acts, Run(cfg, acts).log, key, from)
  {
    if acts != [] {
      var front, a := acts[..|acts| - 1], acts[|acts| - 1];
      AlwaysOnlyFirst(cfg, front, key, from);
      AlwaysAgrees(cfg, front);
      AlwaysEntryRight(cfg, front, key);
      assert Run(cfg, acts) == Do(cfg, Run(cfg, front), a);
      if a.Count? {
        hide Run, Do, EntryRight, OnlyFirst, AllAgree;
        CountOnlyFirst(cfg, acts, Run(cfg, front), key, from);
      } else {
        hide Run, TimelyFrom, AllAgree, EntryRight;
      }
    }
  }

  lemma {:induction false} ApartAtMostJudged(cfg: Config, log: seq<Request>, key: Key, from: nat)
    requires cfg.Valid() && PromptLog(log, 1)
    ensures TimelyFrom(cfg, log, key, from) + AtInstant(cfg, log, key, EndOf(cfg, key)) <= JudgedThrough(cfg, log, key)
  {
    if log != [] {
      ApartAtMostJudged(cfg, log[..|log| - 1], key, from);
      OneTickLate(cfg, log[|log| - 1]);
      hide EndOf, Timely, Config.WindowOf;
    }
  }

  /** With a limit of one, a key lets one request through from inside its window on. */
  lemma OneOnly(cfg: Config, acts: seq<Action>, key: Key, from: nat)
    requires cfg.Valid() && cfg.limit == 1 && Prompt(acts, 1) && from > key.window * cfg.Length()
    ensures TimelyFrom(cfg, Run(cfg, acts).log, key, from) + AtInstant(cfg, Run(cfg, acts).log, key, EndOf(cfg, key)) <= 1
  {
    hide TimelyFrom, AtInstant, EndOf, Run, Config.Length, CountFor, LetThrough, JudgedThrough, UnjudgedBeyond, FirstCount;
    if InTime(cfg, acts, key) {
      AlwaysPrompt(cfg, acts, 1);
      ApartAtMostJudged(cfg, Run(cfg, acts).log, key, from);
      AlwaysLimitRight(cfg, acts, key);
    } else {
      LateFirst(cfg, acts, key);
      AlwaysOnlyFirst(cfg, acts, key, from);
      InstantLimit(cfg, acts, key, EndOf(cfg, key));
    }
  }

  lemma InsideHolds(cfg: Config, acts: seq<Action>, client: string, from: nat)
    requires cfg.Valid() && cfg.limit == 1 && Prompt(acts, 1) && from > cfg.WindowOf(from) * cfg.Length()
    ensures Through(cfg, acts, client, from) <= 2 * cfg.Cap()
  {
    hide TimelyFrom, AtInstant, EndOf, Run, Config.Length, Config.WindowOf, CountedBetween, AllowedFor, Prompt;
    var key := Key(client, cfg.WindowOf(from));
    AlwaysPrompt(cfg, acts, 1);
    InsideBound(cfg, Run(cfg, acts).log, client, from);
    OneOnly(cfg, acts, key, from);
    WindowLetsThrough(cfg, acts, Key(client, key.window + 1));
  }

  lemma HarmlessHolds(cfg: Config, delay: nat, acts: seq<Action>, client: string, from: nat)
    requires cfg.Valid() && Harmless(cfg, delay) && Prompt(acts, delay)
    ensures Through(cfg, acts, client, from) <= 2 * cfg.Cap()
  {
    WindowBounds(cfg, from, cfg.WindowOf(from));
    hide Prompt, Run, CountedBetween, Config.WindowOf;
    if cfg.limit < 1 {
      NoneJudged(cfg, acts, client, from, from + cfg.Length());
    } else if delay == 0 {
      AlwaysPrompt(cfg, acts, 0);
      NoDelayIsTimely(cfg, Run(cfg, acts).log, client, from, from + cfg.Length());
      AnyIntervalTwiceLimit(cfg, acts, client, from);
    } else if from == cfg.WindowOf(from) * cfg.Length() {
      WholeHolds(cfg, acts, client, from);
    } else {
      Distribute(cfg.WindowOf(from), 1, cfg.Length());
      InsideHolds(cfg, acts, client, from);
    }
  }

  // ---- Runs that break the bound -----------------------------------------

  function DoMany(cfg: Config, s: State, a: Action, n: nat): State
    requires cfg.Valid()
  {
    if n == 0 then s else Do(cfg, DoMany(cfg, s, a, n - 1), a)
  }

  lemma RepeatStep(acts: seq<Action>, a: Action, n: nat)
    requires n > 0
    ensures acts + Repeat(a, n) == acts + Repeat(a, n - 1) + [a]
  {
  }

  lemma {:induction false} RunMany(cfg: Config, acts: seq<Action>, a: Action, n: nat)
    requires cfg.Valid()
    ensures Run(cfg, acts + Repeat(a, n)) == DoMany(cfg, Run(cfg, acts), a, n)
  {
    hide Run, Do, Repeat;
    if n == 0 {
      AppendNothing(acts, Repeat(a, 0));
    } else {
      RepeatStep(acts, a, n);
      RunMany(cfg, acts, a, n - 1);
      RunAppend(cfg, acts + Repeat(a, n - 1), a);
    }
  }

  /** What the counter shows, as far as it is still there. */
  function Held(s: State, key: Key): nat {
    if Live(s, key) then s.store[key].count else 0
  }

  lemma CountOne(cfg: Config, s: State, client: string, age: nat, from: nat, to: nat)
    requires cfg.Valid() && Held(s, Key(client, cfg.WindowOf(ReadAt(s.now, age)))) < cfg.limit
    ensures var key, t := Key(client, cfg.WindowOf(ReadAt(s.now, age))), Do(cfg, s, Count(client, age, true));
      && t.now == s.now && Live(t, key)
      && t.store == s.store[key := Entry(Held(s, key) + 1, if Live(s, key) then s.store[key].expiresAt else None)]
      && (Held(s, key) == 0 ==> key in t.pending)
      && CountedBetween(t.log, client, from, to) ==
           CountedBetween(s.log, client, from, to) + One(from <= s.now < to)
  {
    var t := Do(cfg, s, Count(client, age, true));
    CountedBetweenAppend(s.log, t.log[|s.log|], client, from, to);
    hide CountedBetween, Config.WindowOf;
  }

  /** Many requests at one time, all within the limit. */
  lemma {:induction false} CountMany(cfg: Config, s: State, client: string, age: nat, n: nat, from: nat, to: nat)
    requires cfg.Valid() && Held(s, Key(client, cfg.WindowOf(ReadAt(s.now, age)))) + n <= cfg.limit
    ensures var key, t := Key(client, cfg.WindowOf(ReadAt(s.now, age))), DoMany(cfg, s, Count(client, age, true), n);
      && t.now == s.now && (n > 0 ==> Live(t, key)) && Held(t, key) == Held(s, key) + n
      && t.store == (if n == 0 then s.store
           else s.store[key := Entry(Held(s, key) + n, if Live(s, key) then s.store[key].expiresAt else None)])
      && CountedBetween(t.log, client, from, to) ==
           CountedBetween(s.log, client, from, to) + if from <= s.now < to then n else 0
  {
    hide CountedBetween, Config.WindowOf, Do;
    if n > 0 {
      var before := DoMany(cfg, s, Count(client, age, true), n - 1);
      CountMany(cfg, s, client, age, n - 1, from, to);
      assert DoMany(cfg, s, Count(client, age, true), n) == Do(cfg, before, Count(client, age, true));
      hide DoMany;
      CountOne(cfg, before, client, age, from, to);
    }
  }

  /** Requests of three windows: two of them full, the first of them counted two ticks late,
      and one more request in the third. */
  function ThirdWindowRun(cfg: Config, client: string): seq<Action>
    requires cfg.Valid() && cfg.limit >= 1
  {
    [Tick(cfg.Length() + 1)] + Repeat(Count(client, 2, true), cfg.limit) + Repeat(Count(client, 1, true), cfg.limit)
    + [Tick(cfg.Length() - 1)] + [Count(client, 0, true)]
  }

  /** Three windows' worth of clock readings within reach of one stretch. */
  lemma ThreeWindows(cfg: Config)
    requires cfg.Valid()
    ensures cfg.WindowOf(cfg.Length() - 1) == 0 && cfg.WindowOf(cfg.Length()) == 1 && cfg.WindowOf(2 * cfg.Length()) == 2
  {
    WindowBounds(cfg, cfg.Length() - 1, 0);
    WindowBounds(cfg, cfg.Length(), 1);
    WindowBounds(cfg, 2 * cfg.Length(), 2);
  }

  lemma ThirdWindowBreaks(cfg: Config, client: string)
    requires cfg.Valid() && cfg.limit >= 1
    ensures Through(cfg, ThirdWindowRun(cfg, client), client, cfg.Length() + 1) == 2 * cfg.limit + 1
  {
    hide Run, Do, DoMany, CountedBetween, Config.WindowOf, Repeat;
    var from, to := cfg.Length() + 1, cfg.Length() + 1 + cfg.Length();
    var s0 := FRESH.(now := cfg.Length() + 1);
    ThreeWindows(cfg);
    var s1 := DoMany(cfg, s0, Count(client, 2, true), cfg.limit);
    CountMany(cfg, s0, client, 2, cfg.limit, from, to);
    var s2 := DoMany(cfg, s1, Count(client, 1, true), cfg.limit);
    CountMany(cfg, s1, client, 1, cfg.limit, from, to);
    var s3 := s2.(now := 2 * cfg.Length());
    CountOne(cfg, s3, client, 0, from, to);
    EmptyBetween(client, from, to);
    ThirdWindowStates(cfg, client);
  }

  lemma EmptyBetween(client: string, from: nat, to: nat)
    ensures CountedBetween([], client, from, to) == 0
  {
  }

  lemma TickStep(cfg: Config, s: State, ticks: nat)
    requires cfg.Valid()
    ensures Do(cfg, s, Tick(ticks)) == s.(now := s.now + ticks)
  {
  }

  lemma {:induction false} ManyKeepsNow(cfg: Config, s: State, client: string, age: nat, n: nat)
    requires cfg.Valid()
    ensures DoMany(cfg, s, Count(client, age, true), n).now == s.now
  {
    if n > 0 { ManyKeepsNow(cfg, s, client, age, n - 1); }
  }

  lemma ThirdWindowStates(cfg: Config, client: string)
    requires cfg.Valid() && cfg.limit >= 1
    ensures var s1 := DoMany(cfg, FRESH.(now := cfg.Length() + 1), Count(client, 2, true), cfg.limit);
      var s2 := DoMany(cfg, s1, Count(client, 1, true), cfg.limit);
      Run(cfg, ThirdWindowRun(cfg, client)) == Do(cfg, s2.(now := 2 * cfg.Length()), Count(client, 0, true))
  {
    hide Do, DoMany, Repeat;
    var first: seq<Action> := [];
    var a0 := first + [Tick(cfg.Length() + 1)];
    assert Run(cfg, first) == FRESH;
    assert a0 == [Tick(cfg.Length() + 1)];
    hide Run;
    RunAppend(cfg, first, Tick(cfg.Length() + 1));
    TickStep(cfg, FRESH, cfg.Length() + 1);
    var s0 := FRESH.(now := cfg.Length() + 1);
    RunMany(cfg, a0, Count(client, 2, true), cfg.limit);
    ManyKeepsNow(cfg, s0, client, 2, cfg.limit);
    var a1, s1 := a0 + Repeat(Count(client, 2, true), cfg.limit), DoMany(cfg, s0, Count(client, 2, true), cfg.limit);
    RunMany(cfg, a1, Count(client, 1, true), cfg.limit);
    ManyKeepsNow(cfg, s1, client, 1, cfg.limit);
    var a2, s2 := a1 + Repeat(Count(client, 1, true), cfg.limit), DoMany(cfg, s1, Count(client, 1, true), cfg.limit);
    RunAppend(cfg, a2, Tick(cfg.Length() - 1));
    TickStep(cfg, s2, cfg.Length() - 1);
    RunAppend(cfg, a2 + [Tick(cfg.Length() - 1)], Count(client, 0, true));
  }

  lemma ThirdWindowPrompt(cfg: Config, client: string, delay: nat)
    requires cfg.Valid() && cfg.limit >= 1 && delay >= 2
    ensures Prompt(ThirdWindowRun(cfg, client), delay)
  {
    hide Config.Length;
  }

  /** A window's first request and its expire command come as the window begins; the window
      is filled up one tick later, and filled again, one tick late, as the key is gone. */
  function ResetRun(cfg: Config, client: string): seq<Action>
    requires cfg.Valid() && cfg.limit >= 1
  {
    [Tick(cfg.Length())] + [Count(client, 0, true)] + [SetExpiry(Key(client, 1))] + [Tick(1)]
    + Repeat(Count(client, 0, true), cfg.limit - 1) + [Tick(cfg.Length() - 1)]
    + Repeat(Count(client, 1, true), cfg.limit) + Repeat(Count(client, 0, true), cfg.limit)
  }

  lemma ResetPrompt(cfg: Config, client: string, delay: nat)
    requires cfg.Valid() && cfg.limit >= 1 && delay >= 1
    ensures Prompt(ResetRun(cfg, client), delay)
  {
    hide Config.Length;
  }

  lemma ExpireOne(cfg: Config, s: State, key: Key)
    requires cfg.Valid() && key in s.pending && Live(s, key)
    ensures var t := Do(cfg, s, SetExpiry(key));
      t.now == s.now && t.log == s.log && t.store == s.store[key := s.store[key].(expiresAt := Some(s.now + cfg.Length()))]
  {
  }

  lemma ResetStates(cfg: Config, client: string)
    requires cfg.Valid() && cfg.limit >= 1
    ensures var s1 := Do(cfg, FRESH.(now := cfg.Length()), Count(client, 0, true));
      var s2 := Do(cfg, s1, SetExpiry(Key(client, 1)));
      var s3 := DoMany(cfg, Do(cfg, s2, Tick(1)), Count(client, 0, true), cfg.limit - 1);
      var s4 := DoMany(cfg, Do(cfg, s3, Tick(cfg.Length() - 1)), Count(client, 1, true), cfg.limit);
      Run(cfg, ResetRun(cfg, client)) == DoMany(cfg, s4, Count(client, 0, true), cfg.limit)
  {
    hide Do, DoMany, Repeat;
    var first: seq<Action> := [];
    var a0 := first + [Tick(cfg.Length())];
    assert Run(cfg, first) == FRESH;
    assert a0 == [Tick(cfg.Length())];
    hide Run;
    RunAppend(cfg, first, Tick(cfg.Length()));
    TickStep(cfg, FRESH, cfg.Length());
    var a1 := a0 + [Count(client, 0, true)];
    RunAppend(cfg, a0, Count(client, 0, true));
    RunAppend(cfg, a1, SetExpiry(Key(client, 1)));
    var a2 := a1 + [SetExpiry(Key(client, 1))] + [Tick(1)];
    RunAppend(cfg, a1 + [SetExpiry(Key(client, 1))], Tick(1));
    RunMany(cfg, a2, Count(client, 0, true), cfg.limit - 1);
    var a3 := a2 + Repeat(Count(client, 0, true), cfg.limit - 1);
    RunAppend(cfg, a3, Tick(cfg.Length() - 1));
    var a4 := a3 + [Tick(cfg.Length() - 1)];
    RunMany(cfg, a4, Count(client, 1, true), cfg.limit);
    RunMany(cfg, a4 + Repeat(Count(client, 1, true), cfg.limit), Count(client, 0, true), cfg.limit);
  }

  lemma ResetWindows(cfg: Config)
    requires cfg.Valid() && cfg.Length() >= 2
    ensures cfg.WindowOf(cfg.Length() + 1) == 1 && cfg.WindowOf(2 * cfg.Length() - 1) == 1
  {
    WindowBounds(cfg, cfg.Length() + 1, 1);
    WindowBounds(cfg, 2 * cfg.Length() - 1, 1);
  }

  lemma ResetBreaks(cfg: Config, client: string)
    requires cfg.Valid() && cfg.limit >= 1 && cfg.Length() >= 2
    ensures Through(cfg, ResetRun(cfg, client), client, cfg.Length() + 1) == 3 * cfg.limit - 1
  {
    hide Run, Do, DoMany, CountedBetween, Config.WindowOf, Repeat;
    var len := cfg.Length();
    var from, to, key := len + 1, len + 1 + len, Key(client, 1);
    ThreeWindows(cfg);
    ResetWindows(cfg);
    var s0 := FRESH.(now := len);
    var s1 := Do(cfg, s0, Count(client, 0, true));
    CountOne(cfg, s0, client, 0, from, to);
    EmptyBetween(client, from, to);
    var s2 := Do(cfg, s1, SetExpiry(key));
    ExpireOne(cfg, s1, key);
    TickStep(cfg, s2, 1);
    var s3 := DoMany(cfg, Do(cfg, s2, Tick(1)), Count(client, 0, true), cfg.limit - 1);
    CountMany(cfg, Do(cfg, s2, Tick(1)), client, 0, cfg.limit - 1, from, to);
    TickStep(cfg, s3, len - 1);
    var s4 := DoMany(cfg, Do(cfg, s3, Tick(len - 1)), Count(client, 1, true), cfg.limit);
    CountMany(cfg, Do(cfg, s3, Tick(len - 1)), client, 1, cfg.limit, from, to);
    CountMany(cfg, s4, client, 0, cfg.limit, from, to);
    ResetStates(cfg, client);
  }

  /** The bound of twice the limit in any stretch one window long, by the time of counting,
      holds in every run whose delays are no longer than this, if and only if the limit lets
      nothing through, or there is no delay, or it is of one tick and the limit or the
      window is one as well. */
  lemma DelayExactly(cfg: Config, delay: nat, client: string)
    requires cfg.Valid()
    ensures IntervalsHold(cfg, delay, client) <==> Harmless(cfg, delay)
  {
    hide Through, Prompt;
    if Harmless(cfg, delay) {
      forall acts: seq<Action>, from: nat | Prompt(acts, delay) ensures Through(cfg, acts, client, from) <= 2 * cfg.Cap() {
        HarmlessHolds(cfg, delay, acts, client, from);
      }
    } else if delay >= 2 {
      ThirdWindowPrompt(cfg, client, delay);
      ThirdWindowBreaks(cfg, client);
    } else {
      ResetPrompt(cfg, client, delay);
      ResetBreaks(cfg, client);
    }
  }

  // ---- An example --------------------------------------------------------

  lemma {:induction false} InTimeWithoutExpiry(cfg: Config, acts: seq<Action>, key: Key)
    requires cfg.Valid() && forall i :: 0 <= i < |acts| ==> !acts[i].SetExpiry?
    ensures InTime(cfg, acts, key) && Expiry(cfg, acts, key).None?
  {
    if acts != [] {
      InTimeWithoutExpiry(cfg, acts[..|acts| - 1], key);
      hide CountsKey, Clock, Counted;
    }
  }

  /** A limit of 1 and a window of two ticks: three requests pass within two ticks, although
      no key was gone. Each has a window of its own; the first was counted two ticks late. */
  lemma ThreePass()
    ensures var cfg := Config(1, 2, 1);
      var acts := [Tick(3), Count("c", 2, true), Count("c", 1, true), Tick(1), Count("c", 0, true)];
      && Through(cfg, acts, "c", 3) == 3 > 2 * cfg.Cap()
      && forall key: Key :: InTime(cfg, acts, key)
  {
    var cfg := Config(1, 2, 1);
    var acts := [Tick(3), Count("c", 2, true), Count("c", 1, true), Tick(1), Count("c", 0, true)];
    assert cfg.Length() == 2;
    ThirdWindowBreaks(cfg, "c");
    assert ThirdWindowRun(cfg, "c") == acts;
    forall key: Key ensures InTime(cfg, acts, key) {
      InTimeWithoutExpiry(cfg, acts, key);
    }
  }
}
