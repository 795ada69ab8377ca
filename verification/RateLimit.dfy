/** The fixed-window rate limiter: a counter per client and window, in a store whose keys
    expire. Any number of requests are under way at once, as interleaved steps. */
module RateLimit {
  import opened Arithmetic
  import opened MachineTypes
  import opened Sequences

  /** The limit, the window length in seconds, and the clock's ticks per second. */
  datatype Config = Config(limit: int, windowSeconds: nat, ticks: nat) {
    predicate Valid() { windowSeconds > 0 && ticks > 0 }

    /** One window in ticks. */
    function Length(): (r: nat)
      ensures Valid() ==> r > 0
    {
      if Valid() then PositiveProduct(windowSeconds, ticks); windowSeconds * ticks else 0
    }

    /** Whole seconds, divided by the window length. */
    function WindowOf(time: nat): nat
      requires Valid()
    {
      (time / ticks) / windowSeconds
    }

    /** The most requests that one window lets through. */
    function Cap(): (r: nat)
      ensures r >= limit && (r == 0 || r == limit)
    {
      if limit < 0 then 0 else limit
    }
  }

  lemma PositiveProduct(x: nat, y: nat)
    requires x > 0 && y > 0
    ensures x * y > 0
  {
  }

  datatype Key = Key(client: string, window: nat)

  /** A stored counter and, once an expiry was set, the time from which it is gone. */
  datatype Entry = Entry(count: nat, expiresAt: Option<nat>)

  /** A request that went through the counter: when it read the clock, when its increment
      ran, whether the store then stayed up so that the count could be judged, and whether
      the request was let through. */
  datatype Request = Request(client: string, readAt: nat, countedAt: nat, judged: bool, allowed: bool)

  datatype State = State(
    now: nat,
    store: map<Key, Entry>,
    // keys whose creator has yet to send its expire command
    pending: multiset<Key>,
    log: seq<Request>)

  /** Count: a request that read the clock `age` ticks ago increments its counter now; if
      the store fails behind the increment, the request passes without being judged.
      SetExpiry: a request that found 1 sends its expire command, late or never. */
  datatype Action = Count(client: string, age: nat, judged: bool) | SetExpiry(key: Key) | Tick(ticks: nat)

  const FRESH: State := State(0, map[], multiset{}, [])

  // ---- Steps -------------------------------------------------------------

  predicate Live(s: State, key: Key) {
    key in s.store && (s.store[key].expiresAt.Some? ==> s.now < s.store[key].expiresAt.value)
  }

  function KeyOf(cfg: Config, r: Request): Key
    requires cfg.Valid()
  {
    Key(r.client, cfg.WindowOf(r.readAt))
  }

  function DoCount(cfg: Config, s: State, client: string, readAt: nat, judged: bool): State
    requires cfg.Valid()
  {
    var key := Key(client, cfg.WindowOf(readAt));
    var entry := if Live(s, key) then s.store[key].(count := s.store[key].count + 1) else Entry(1, None);
    s.(store := s.store[key := entry],
       pending := if entry.count == 1 then s.pending + multiset{key} else s.pending,
       log := s.log + [Request(client, readAt, s.now, judged, !judged || entry.count <= cfg.limit)])
  }

  function DoSetExpiry(cfg: Config, s: State, key: Key): State {
    if key !in s.pending then s
    else
      s.(pending := s.pending - multiset{key},
         store := if Live(s, key) then s.store[key := s.store[key].(expiresAt := Some(s.now + cfg.Length()))] else s.store)
  }

  function ReadAt(now: nat, age: nat): nat {
    if age <= now then now - age else 0
  }

  function Do(cfg: Config, s: State, a: Action): State
    requires cfg.Valid()
  {
    match a
    case Count(client, age, judged) => DoCount(cfg, s, client, ReadAt(s.now, age), judged)
    case SetExpiry(key) => DoSetExpiry(cfg, s, key)
    case Tick(ticks) => s.(now := s.now + ticks)
  }

  function Run(cfg: Config, acts: seq<Action>): State
    requires cfg.Valid()
  {
    if acts == [] then FRESH else Do(cfg, Run(cfg, acts[..|acts| - 1]), acts[|acts| - 1])
  }

  // ---- Windows -----------------------------------------------------------

  /** A window spans so many seconds, each of so many ticks of the clock. */
  lemma WindowSpan(cfg: Config, time: nat)
    requires cfg.Valid()
    ensures var span := cfg.windowSeconds * cfg.ticks;
      cfg.WindowOf(time) * span <= time < (cfg.WindowOf(time) + 1) * span
  {
    WindowBounds(cfg, time, cfg.WindowOf(time));
    assert cfg.Length() == cfg.windowSeconds * cfg.ticks;
    hide Config.WindowOf, Config.Length;
  }

  lemma WindowIsQuotient(cfg: Config, time: nat)
    requires cfg.Valid()
    ensures cfg.WindowOf(time) == time / cfg.Length()
  {
    NestedDiv(time, cfg.ticks, cfg.windowSeconds);
  }

  lemma NestedDiv(t: nat, a: nat, b: nat)
    requires a > 0 && b > 0 && b * a > 0
    ensures (t / a) / b == t / (b * a)
  {
    NestedQuotient(t, a, b, t / a, (t / a) / b, (t / a) % b, t % a);
  }

  lemma NestedQuotient(t: nat, a: nat, b: nat, c: nat, q: nat, r: nat, m: nat)
    requires t == a * c + m && c == b * q + r && r < b && m < a && b * a > 0
    ensures t / (b * a) == q
  {
    Distribute(b * q, r, a);
    MulSwap(b, q, a);
    MulMonotone(r + 1, b, a);
    Distribute(r, 1, a);
    DivModUnique(t, b * a, q, r * a + m);
  }

  lemma MulSwap(b: nat, q: nat, a: nat)
    ensures b * q * a == b * a * q
  {
  }

  /** A window is the times from its start up to, not including, the start of the next. */
  lemma WindowBounds(cfg: Config, time: nat, w: nat)
    requires cfg.Valid()
    ensures cfg.WindowOf(time) <= w <==> time < (w + 1) * cfg.Length()
    ensures cfg.WindowOf(time) >= w <==> time >= w * cfg.Length()
  {
    WindowIsQuotient(cfg, time);
    DivLess(w, time, cfg.Length());
    if w > 0 { DivLess(w - 1, time, cfg.Length()); }
  }

  // ---- Counting without expiry -------------------------------------------

  /** Requests for the key: what a counter that never expires would show. */
  function CountFor(cfg: Config, log: seq<Request>, key: Key): nat
    requires cfg.Valid()
  {
    if log == [] then 0
    else CountFor(cfg, log[..|log| - 1], key) + if KeyOf(cfg, log[|log| - 1]) == key then 1 else 0
  }

  lemma CountForAppend(cfg: Config, log: seq<Request>, r: Request, key: Key)
    requires cfg.Valid()
    ensures CountFor(cfg, log + [r], key) == CountFor(cfg, log, key) + if KeyOf(cfg, r) == key then 1 else 0
  {
    TakeOfAppend(log, r);
  }

  /** The increment ran in the window that the request had computed. */
  predicate Timely(cfg: Config, r: Request)
    requires cfg.Valid()
  {
    cfg.WindowOf(r.countedAt) == cfg.WindowOf(r.readAt)
  }

  /** The verdict on request i is the one that a counter without expiry gives. */
  predicate FaithfulAt(cfg: Config, log: seq<Request>, i: nat)
    requires cfg.Valid() && i < |log|
  {
    log[i].allowed <==> !log[i].judged || CountFor(cfg, log[..i + 1], KeyOf(cfg, log[i])) <= cfg.limit
  }

  /** Every timely request gets the plain counter's verdict. */
  ghost predicate Faithful(cfg: Config, log: seq<Request>)
    requires cfg.Valid()
  {
    forall i :: 0 <= i < |log| && Timely(cfg, log[i]) ==> FaithfulAt(cfg, log, i)
  }

  lemma FaithfulAppend(cfg: Config, log: seq<Request>, r: Request)
    requires cfg.Valid() && Faithful(cfg, log)
    requires Timely(cfg, r) ==> (r.allowed <==> !r.judged || CountFor(cfg, log, KeyOf(cfg, r)) + 1 <= cfg.limit)
    ensures Faithful(cfg, log + [r])
  {
    var all := log + [r];
    forall i | 0 <= i < |all| && Timely(cfg, all[i]) ensures FaithfulAt(cfg, all, i) {
      if i < |log| {
        assert all[..i + 1] == log[..i + 1];
        assert FaithfulAt(cfg, log, i);
      } else {
        assert all[..i + 1] == log + [r];
        CountForAppend(cfg, log, r, KeyOf(cfg, r));
      }
    }
  }

  // ---- The invariant -----------------------------------------------------

  /** The stored counter of a window that is not over agrees with the plain count, and no
      expiry falls inside the window. */
  ghost predicate Agrees(cfg: Config, s: State, key: Key)
    requires cfg.Valid()
  {
    if CountFor(cfg, s.log, key) == 0 then key !in s.store
    else
      && key in s.store && s.store[key].count == CountFor(cfg, s.log, key)
      && (s.store[key].expiresAt.Some? ==> s.store[key].expiresAt.value >= (key.window + 1) * cfg.Length())
  }

  ghost predicate AllAgree(cfg: Config, s: State)
    requires cfg.Valid()
  {
    forall key: Key :: cfg.WindowOf(s.now) <= key.window ==>
      Agrees(cfg, s, key) && (cfg.WindowOf(s.now) < key.window ==> CountFor(cfg, s.log, key) == 0)
  }

  lemma AgreesIsLive(cfg: Config, s: State, key: Key)
    requires cfg.Valid() && cfg.WindowOf(s.now) <= key.window && Agrees(cfg, s, key)
    ensures Live(s, key) <==> CountFor(cfg, s.log, key) > 0
  {
    WindowBounds(cfg, s.now, key.window);
  }

  /** A late increment only touches a window that is over. */
  lemma CountAgrees(cfg: Config, s: State, client: string, readAt: nat, judged: bool)
    requires cfg.Valid() && AllAgree(cfg, s) && readAt <= s.now
    ensures AllAgree(cfg, DoCount(cfg, s, client, readAt, judged))
    ensures var r := DoCount(cfg, s, client, readAt, judged).log[|s.log|];
      Timely(cfg, r) ==> (r.allowed <==> !r.judged || CountFor(cfg, s.log, KeyOf(cfg, r)) + 1 <= cfg.limit)
  {
    hide CountFor, Config.WindowOf, Config.Length;
    var mine := Key(client, cfg.WindowOf(readAt));
    var after := DoCount(cfg, s, client, readAt, judged);
    WindowBounds(cfg, readAt, cfg.WindowOf(s.now));
    WindowBounds(cfg, s.now, cfg.WindowOf(s.now));
    if cfg.WindowOf(s.now) <= mine.window { AgreesIsLive(cfg, s, mine); }
    forall key: Key | cfg.WindowOf(after.now) <= key.window
      ensures Agrees(cfg, after, key) && (cfg.WindowOf(s.now) < key.window ==> CountFor(cfg, after.log, key) == 0)
    {
      assert Agrees(cfg, s, key);
      CountForAppend(cfg, s.log, after.log[|s.log|], key);
    }
  }

  lemma ExpiryAgrees(cfg: Config, s: State, key: Key)
    requires cfg.Valid() && AllAgree(cfg, s)
    ensures AllAgree(cfg, DoSetExpiry(cfg, s, key))
  {
    var after := DoSetExpiry(cfg, s, key);
    forall other: Key | cfg.WindowOf(s.now) <= other.window ensures Agrees(cfg, after, other) {
      assert Agrees(cfg, s, other);
      hide CountFor;
      if other == key && Live(s, key) {
        StartedWindow(cfg, s, key);
      }
    }
  }

  /** A window with requests in it has begun, so an expiry set now falls behind its end. */
  lemma StartedWindow(cfg: Config, s: State, key: Key)
    requires cfg.Valid() && key in s.store
    ensures key.window <= cfg.WindowOf(s.now) ==> s.now + cfg.Length() >= (key.window + 1) * cfg.Length()
  {
    WindowBounds(cfg, s.now, key.window);
    Distribute(key.window, 1, cfg.Length());
  }

  lemma TickAgrees(cfg: Config, s: State, ticks: nat)
    requires cfg.Valid() && AllAgree(cfg, s)
    ensures AllAgree(cfg, s.(now := s.now + ticks))
  {
    WindowBounds(cfg, s.now + ticks, cfg.WindowOf(s.now));
    WindowBounds(cfg, s.now, cfg.WindowOf(s.now));
    var after := s.(now := s.now + ticks);
    forall key: Key | cfg.WindowOf(after.now) <= key.window
      ensures Agrees(cfg, after, key) && (cfg.WindowOf(after.now) < key.window ==> CountFor(cfg, after.log, key) == 0)
    {
      assert cfg.WindowOf(s.now) <= key.window;
      hide CountFor;
    }
  }

  lemma StepAgrees(cfg: Config, s: State, a: Action)
    requires cfg.Valid() && AllAgree(cfg, s) && Faithful(cfg, s.log)
    ensures AllAgree(cfg, Do(cfg, s, a)) && Faithful(cfg, Do(cfg, s, a).log)
  {
    match a {
      case Count(client, age, judged) =>
        CountAgrees(cfg, s, client, ReadAt(s.now, age), judged);
        FaithfulAppend(cfg, s.log, DoCount(cfg, s, client, ReadAt(s.now, age), judged).log[|s.log|]);
        hide Faithful, AllAgree, Timely;
      case SetExpiry(key) => ExpiryAgrees(cfg, s, key);
      case Tick(ticks) => TickAgrees(cfg, s, ticks);
    }
  }

  lemma {:induction false} AlwaysAgrees(cfg: Config, acts: seq<Action>)
    requires cfg.Valid()
    ensures AllAgree(cfg, Run(cfg, acts)) && Faithful(cfg, Run(cfg, acts).log)
  {
    if acts != [] {
      var s, a := Run(cfg, acts[..|acts| - 1]), acts[|acts| - 1];
      AlwaysAgrees(cfg, acts[..|acts| - 1]);
      StepAgrees(cfg, s, a);
      assert Run(cfg, acts) == Do(cfg, s, a);
      hide Do, AllAgree, Faithful;
    }
  }

  // ---- Results -----------------------------------------------------------

  /** In every run: while a window is not over, its counter is stored exactly if it was
      counted in, and shows the plain count. No expiry ever resets it. */
  lemma CounterNeverReset(cfg: Config, acts: seq<Action>, key: Key)
    requires cfg.Valid() && cfg.WindowOf(Run(cfg, acts).now) <= key.window
    ensures var s := Run(cfg, acts);
      && (Live(s, key) <==> CountFor(cfg, s.log, key) > 0)
      && (Live(s, key) ==> s.store[key].count == CountFor(cfg, s.log, key))
  {
    AlwaysAgrees(cfg, acts);
    var s := Run(cfg, acts);
    hide Run;
    assert Agrees(cfg, s, key);
    AgreesIsLive(cfg, s, key);
  }

  /** Whatever other requests do, a request that is counted within its own window gets the
      verdict of a counter that never expires. */
  lemma TimelyVerdict(cfg: Config, acts: seq<Action>, i: nat)
    requires cfg.Valid() && i < |Run(cfg, acts).log| && Timely(cfg, Run(cfg, acts).log[i])
    ensures var log := Run(cfg, acts).log;
      log[i].allowed <==> !log[i].judged || CountFor(cfg, log[..i + 1], KeyOf(cfg, log[i])) <= cfg.limit
  {
    AlwaysAgrees(cfg, acts);
    assert FaithfulAt(cfg, Run(cfg, acts).log, i);
  }

  // ---- What a window lets through ----------------------------------------

  /** The log's times never go back. */
  ghost predicate Ordered(log: seq<Request>, now: nat) {
    && (forall i :: 0 <= i < |log| ==> log[i].readAt <= log[i].countedAt <= now)
    && (forall i, j :: 0 <= i < j < |log| ==> log[i].countedAt <= log[j].countedAt)
  }

  lemma OrderedAppend(log: seq<Request>, now: nat, r: Request)
    requires Ordered(log, now) && r.readAt <= r.countedAt == now
    ensures Ordered(log + [r], now)
  {
  }

  lemma StepOrdered(cfg: Config, s: State, a: Action)
    requires cfg.Valid() && Ordered(s.log, s.now)
    ensures Ordered(Do(cfg, s, a).log, Do(cfg, s, a).now)
  {
    if a.Count? {
      hide Live, Config.WindowOf;
      OrderedAppend(s.log, s.now, DoCount(cfg, s, a.client, ReadAt(s.now, a.age), a.judged).log[|s.log|]);
      hide Ordered;
    }
  }

  lemma {:induction false} AlwaysOrdered(cfg: Config, acts: seq<Action>)
    requires cfg.Valid()
    ensures Ordered(Run(cfg, acts).log, Run(cfg, acts).now)
  {
    if acts != [] {
      var s, a := Run(cfg, acts[..|acts| - 1]), acts[|acts| - 1];
      AlwaysOrdered(cfg, acts[..|acts| - 1]);
      assert Run(cfg, acts) == Do(cfg, s, a);
      hide Run, Do, Ordered;
      StepOrdered(cfg, s, a);
    }
  }

  function One(b: bool): nat {
    if b then 1 else 0
  }

  predicate TimelyFor(cfg: Config, r: Request, key: Key)
    requires cfg.Valid()
  {
    KeyOf(cfg, r) == key && Timely(cfg, r)
  }

  /** Timely requests for the key. */
  function TimelyCount(cfg: Config, log: seq<Request>, key: Key): nat
    requires cfg.Valid()
  {
    if log == [] then 0
    else TimelyCount(cfg, log[..|log| - 1], key) + One(TimelyFor(cfg, log[|log| - 1], key))
  }

  /** Those of them that were judged and let through. */
  function AllowedFor(cfg: Config, log: seq<Request>, key: Key): nat
    requires cfg.Valid()
  {
    if log == [] then 0
    else
      AllowedFor(cfg, log[..|log| - 1], key)
      + One(TimelyFor(cfg, log[|log| - 1], key) && log[|log| - 1].judged && log[|log| - 1].allowed)
  }

  /** Those of them that passed without being judged. */
  function UnjudgedFor(cfg: Config, log: seq<Request>, key: Key): nat
    requires cfg.Valid()
  {
    if log == [] then 0
    else
      UnjudgedFor(cfg, log[..|log| - 1], key) + One(TimelyFor(cfg, log[|log| - 1], key) && !log[|log| - 1].judged)
  }

  /** Until the window is over, all its requests were timely. */
  lemma {:induction false} TimelyComeFirst(cfg: Config, log: seq<Request>, now: nat, key: Key)
    requires cfg.Valid() && Ordered(log, now) && cfg.WindowOf(now) <= key.window
    ensures CountFor(cfg, log, key) == TimelyCount(cfg, log, key)
  {
    if log != [] {
      var n := |log| - 1;
      TimelyComeFirst(cfg, log[..n], now, key);
      WindowGrows(cfg, log[n].readAt, log[n].countedAt);
      WindowGrows(cfg, log[n].countedAt, now);
      hide Config.WindowOf;
    }
  }

  lemma WindowGrows(cfg: Config, from: nat, to: nat)
    requires cfg.Valid() && from <= to
    ensures cfg.WindowOf(from) <= cfg.WindowOf(to)
  {
    WindowBounds(cfg, to, cfg.WindowOf(to));
    WindowBounds(cfg, from, cfg.WindowOf(to));
  }

  lemma OrderedPrefix(log: seq<Request>, now: nat)
    requires log != [] && Ordered(log, now)
    ensures Ordered(log[..|log| - 1], log[|log| - 1].countedAt) && Ordered(log, log[|log| - 1].countedAt)
  {
  }

  lemma FaithfulPrefix(cfg: Config, log: seq<Request>)
    requires cfg.Valid() && log != [] && Faithful(cfg, log)
    ensures Faithful(cfg, log[..|log| - 1])
    ensures Timely(cfg, log[|log| - 1]) ==>
      (log[|log| - 1].allowed <==> !log[|log| - 1].judged || CountFor(cfg, log, KeyOf(cfg, log[|log| - 1])) <= cfg.limit)
  {
    var n := |log| - 1;
    forall i | 0 <= i < n && Timely(cfg, log[..n][i]) ensures FaithfulAt(cfg, log[..n], i) {
      assert FaithfulAt(cfg, log, i);
      assert log[..n][..i + 1] == log[..i + 1];
    }
    if Timely(cfg, log[n]) {
      assert FaithfulAt(cfg, log, n);
      TakeAll(log);
    }
  }

  ghost predicate Capped(cfg: Config, log: seq<Request>, key: Key)
    requires cfg.Valid()
  {
    var first := if TimelyCount(cfg, log, key) < cfg.Cap() then TimelyCount(cfg, log, key) else cfg.Cap();
    first - UnjudgedFor(cfg, log, key) <= AllowedFor(cfg, log, key) <= first
  }

  lemma {:induction false} FaithfulCaps(cfg: Config, log: seq<Request>, now: nat, key: Key)
    requires cfg.Valid() && Faithful(cfg, log) && Ordered(log, now)
    ensures Capped(cfg, log, key)
  {
    if log != [] {
      var n := |log| - 1;
      FaithfulPrefix(cfg, log);
      OrderedPrefix(log, now);
      FaithfulCaps(cfg, log[..n], log[n].countedAt, key);
      if TimelyFor(cfg, log[n], key) { TimelyComeFirst(cfg, log, log[n].countedAt, key); }
      hide CountFor, Timely, Faithful, Ordered, Config.WindowOf;
    }
  }

  /** In each window, of the requests counted in it, a client's first `limit` are let
      through and no others; those among the first that were never judged passed anyway. */
  lemma WindowLetsThrough(cfg: Config, acts: seq<Action>, key: Key)
    requires cfg.Valid()
    ensures var log := Run(cfg, acts).log;
      var first := if TimelyCount(cfg, log, key) < cfg.Cap() then TimelyCount(cfg, log, key) else cfg.Cap();
      first - UnjudgedFor(cfg, log, key) <= AllowedFor(cfg, log, key) <= first
  {
    AlwaysAgrees(cfg, acts);
    AlwaysOrdered(cfg, acts);
    FaithfulCaps(cfg, Run(cfg, acts).log, Run(cfg, acts).now, key);
  }

  predicate AllowedIn(cfg: Config, r: Request, client: string, from: nat, to: nat)
    requires cfg.Valid()
  {
    r.client == client && Timely(cfg, r) && r.judged && r.allowed && from <= r.countedAt < to
  }

  /** A client's timely requests that were let through at a time in [from, to). */
  function AllowedBetween(cfg: Config, log: seq<Request>, client: string, from: nat, to: nat): nat
    requires cfg.Valid()
  {
    if log == [] then 0
    else
      AllowedBetween(cfg, log[..|log| - 1], client, from, to) + One(AllowedIn(cfg, log[|log| - 1], client, from, to))
  }

  lemma TwoWindows(cfg: Config, from: nat, time: nat)
    requires cfg.Valid() && from <= time < from + cfg.Length()
    ensures cfg.WindowOf(from) <= cfg.WindowOf(time) <= cfg.WindowOf(from) + 1
  {
    var w := cfg.WindowOf(from);
    WindowBounds(cfg, from, w);
    WindowBounds(cfg, time, w);
    WindowBounds(cfg, time, w + 1);
    Distribute(w + 1, 1, cfg.Length());
  }

  lemma {:induction false} BetweenInTwoWindows(cfg: Config, log: seq<Request>, client: string, from: nat)
    requires cfg.Valid()
    ensures var w := cfg.WindowOf(from);
      AllowedBetween(cfg, log, client, from, from + cfg.Length()) <=
        AllowedFor(cfg, log, Key(client, w)) + AllowedFor(cfg, log, Key(client, w + 1))
  {
    if log != [] {
      var n := |log| - 1;
      BetweenInTwoWindows(cfg, log[..n], client, from);
      var r := log[n];
      if from <= r.countedAt < from + cfg.Length() { TwoWindows(cfg, from, r.countedAt); }
      hide Config.WindowOf, Config.Length;
    }
  }

  /** In any stretch of time one window long, at most twice the limit of a client's timely
      requests are let through. */
  lemma AnyIntervalTwiceLimit(cfg: Config, acts: seq<Action>, client: string, from: nat)
    requires cfg.Valid()
    ensures AllowedBetween(cfg, Run(cfg, acts).log, client, from, from + cfg.Length()) <= 2 * cfg.Cap()
  {
    hide Run, AllowedBetween, AllowedFor, TimelyCount, UnjudgedFor, Config.WindowOf, Config.Length;
    var w := cfg.WindowOf(from);
    BetweenInTwoWindows(cfg, Run(cfg, acts).log, client, from);
    WindowLetsThrough(cfg, acts, Key(client, w));
    WindowLetsThrough(cfg, acts, Key(client, w + 1));
  }

  // ---- When a late request resets a counter ------------------------------

  /** The time after some actions. */
  function Clock(acts: seq<Action>): nat {
    if acts == [] then 0
    else Clock(acts[..|acts| - 1]) + if acts[|acts| - 1].Tick? then acts[|acts| - 1].ticks else 0
  }

  /** The action, at this time, counts a request for the key. */
  predicate CountsKey(cfg: Config, a: Action, now: nat, key: Key)
    requires cfg.Valid()
  {
    a.Count? && key == Key(a.client, cfg.WindowOf(ReadAt(now, a.age)))
  }

  /** Actions that count a request for the key. */
  function Counted(cfg: Config, acts: seq<Action>, key: Key): nat
    requires cfg.Valid()
  {
    if acts == [] then 0
    else
      var front := acts[..|acts| - 1];
      Counted(cfg, front, key) + One(CountsKey(cfg, acts[|acts| - 1], Clock(front), key))
  }

  /** When the key goes: one window after the first expire command that reaches it. */
  function Expiry(cfg: Config, acts: seq<Action>, key: Key): Option<nat>
    requires cfg.Valid()
  {
    if acts == [] then None
    else
      var front := acts[..|acts| - 1];
      if Expiry(cfg, front, key).Some? then Expiry(cfg, front, key)
      else if acts[|acts| - 1] == SetExpiry(key) && Counted(cfg, front, key) > 0 then Some(Clock(front) + cfg.Length())
      else None
  }

  /** No request for the key was counted at or after the time when the key goes. */
  predicate InTime(cfg: Config, acts: seq<Action>, key: Key)
    requires cfg.Valid()
  {
    acts == [] ||
    var front := acts[..|acts| - 1];
    && InTime(cfg, front, key)
    && (CountsKey(cfg, acts[|acts| - 1], Clock(front), key) && Expiry(cfg, front, key).Some? ==>
          Clock(front) < Expiry(cfg, front, key).value)
  }

  /** The key's entry and the expire command still to come, while all was in time; a count
      that fell short, otherwise. */
  ghost predicate EntryRight(cfg: Config, acts: seq<Action>, s: State, key: Key)
    requires cfg.Valid()
  {
    var n := Counted(cfg, acts, key);
    && s.now == Clock(acts) && CountFor(cfg, s.log, key) == n
    && if n == 0 then key !in s.store && key !in s.pending && InTime(cfg, acts, key) && Expiry(cfg, acts, key).None?
       else
         && key in s.store
         && (if InTime(cfg, acts, key) then
               s.store[key] == Entry(n, Expiry(cfg, acts, key)) && s.pending[key] == One(Expiry(cfg, acts, key).None?)
             else s.store[key].count < n)
  }

  lemma CountEntryRight(cfg: Config, acts: seq<Action>, s: State, key: Key)
    requires cfg.Valid() && acts != [] && acts[|acts| - 1].Count?
    requires EntryRight(cfg, acts[..|acts| - 1], s, key)
    ensures EntryRight(cfg, acts, Do(cfg, s, acts[|acts| - 1]), key)
  {
    var after := Do(cfg, s, acts[|acts| - 1]);
    CountForAppend(cfg, s.log, after.log[|s.log|], key);
    hide CountFor, Config.WindowOf, Config.Length;
  }

  lemma OtherEntryRight(cfg: Config, acts: seq<Action>, s: State, key: Key)
    requires cfg.Valid() && acts != [] && !acts[|acts| - 1].Count?
    requires EntryRight(cfg, acts[..|acts| - 1], s, key)
    ensures EntryRight(cfg, acts, Do(cfg, s, acts[|acts| - 1]), key)
  {
    hide EntryRight, DoSetExpiry;
    if acts[|acts| - 1] == SetExpiry(key) { ExpireEntryRight(cfg, acts, s, key); }
    else { ForeignEntryRight(cfg, acts, s, key); }
  }

  lemma ForeignEntryRight(cfg: Config, acts: seq<Action>, s: State, key: Key)
    requires cfg.Valid() && acts != [] && !acts[|acts| - 1].Count? && acts[|acts| - 1] != SetExpiry(key)
    requires EntryRight(cfg, acts[..|acts| - 1], s, key)
    ensures EntryRight(cfg, acts, Do(cfg, s, acts[|acts| - 1]), key)
  {
    hide CountFor, Config.WindowOf, Config.Length, Live;
  }

  lemma ExpireEntryRight(cfg: Config, acts: seq<Action>, s: State, key: Key)
    requires cfg.Valid() && acts != [] && acts[|acts| - 1] == SetExpiry(key)
    requires EntryRight(cfg, acts[..|acts| - 1], s, key)
    ensures EntryRight(cfg, acts, DoSetExpiry(cfg, s, key), key)
  {
    hide CountFor, Config.WindowOf, Config.Length;
  }

  lemma {:induction false} AlwaysEntryRight(cfg: Config, acts: seq<Action>, key: Key)
    requires cfg.Valid()
    ensures EntryRight(cfg, acts, Run(cfg, acts), key)
  {
    if acts != [] {
      var s, a := Run(cfg, acts[..|acts| - 1]), acts[|acts| - 1];
      AlwaysEntryRight(cfg, acts[..|acts| - 1], key);
      assert Run(cfg, acts) == Do(cfg, s, a);
      hide Run, Do, EntryRight;
      if a.Count? { CountEntryRight(cfg, acts, s, key); } else { OtherEntryRight(cfg, acts, s, key); }
    }
  }

  /** A stored counter shows the plain count, in windows that are over as well, if and only
      if no request for it was counted at or after the time when its key went. */
  lemma CountExactly(cfg: Config, acts: seq<Action>, key: Key)
    requires cfg.Valid() && CountFor(cfg, Run(cfg, acts).log, key) > 0
    ensures var s := Run(cfg, acts);
      key in s.store && (s.store[key].count == CountFor(cfg, s.log, key) <==> InTime(cfg, acts, key))
  {
    AlwaysEntryRight(cfg, acts, key);
  }

  /** A request whose increment runs after its window's key has expired is counted from 1
      again: with a limit of 1, two requests of the same window are let through. */
  lemma LateRequestResets()
    ensures var cfg := Config(1, 1, 1);
      var s1 := Do(cfg, FRESH, Count("c", 0, true));
      var s2 := Do(cfg, Do(cfg, s1, SetExpiry(Key("c", 0))), Tick(2));
      var log := Do(cfg, s2, Count("c", 2, true)).log;
      && |log| == 2 && !Timely(cfg, log[1]) && KeyOf(cfg, log[0]) == KeyOf(cfg, log[1])
      && log[0].allowed && log[1].allowed
  {
    var cfg := Config(1, 1, 1);
    var s1 := Do(cfg, FRESH, Count("c", 0, true));
    assert s1.store == map[Key("c", 0) := Entry(1, None)];
    assert Key("c", 0) in s1.pending;
    var s2 := Do(cfg, Do(cfg, s1, SetExpiry(Key("c", 0))), Tick(2));
    var log := Do(cfg, s2, Count("c", 2, true)).log;
    assert cfg.WindowOf(log[1].countedAt) != cfg.WindowOf(log[1].readAt);
  }

  // ---- The middleware ----------------------------------------------------

  /** How the store may fail a request: it is down; it counts but its answer is lost; or
      the expire command fails, with or without having taken effect. */
  datatype Fault = NoFault | Down | ReplyLost | ExpireFails(applied: bool)

  /** Does the request get to compare the count with the limit? */
  predicate Judged(fault: Fault, first: bool) {
    fault == NoFault || (fault.ExpireFails? && !first)
  }

  predicate SetsExpiry(fault: Fault, first: bool) {
    first && (fault == NoFault || (fault.ExpireFails? && fault.applied))
  }

  /** The machine's steps once a request has run through at a time. */
  function Extended(cfg: Config, trace: seq<Action>, client: string, now: nat, fault: Fault, first: bool): seq<Action>
    requires cfg.Valid() && Run(cfg, trace).now <= now
  {
    var counted := trace + [Tick(now - Run(cfg, trace).now)] + [Count(client, 0, Judged(fault, first))];
    if SetsExpiry(fault, first) then counted + [SetExpiry(Key(client, cfg.WindowOf(now)))] else counted
  }

  lemma RunAppend(cfg: Config, acts: seq<Action>, a: Action)
    requires cfg.Valid()
    ensures Run(cfg, acts + [a]) == Do(cfg, Run(cfg, acts), a)
  {
    TakeOfAppend(acts, a);
  }

  lemma TickThenCount(cfg: Config, s: State, client: string, now: nat, judged: bool)
    requires cfg.Valid() && s.now <= now
    ensures Do(cfg, Do(cfg, s, Tick(now - s.now)), Count(client, 0, judged)) == DoCount(cfg, s.(now := now), client, now, judged)
  {
    hide DoCount;
  }

  lemma StepsRun(cfg: Config, trace: seq<Action>, client: string, now: nat, fault: Fault, first: bool)
    requires cfg.Valid() && Run(cfg, trace).now <= now
    ensures var s := Run(cfg, trace);
      var counted := DoCount(cfg, s.(now := now), client, now, Judged(fault, first));
      Run(cfg, Extended(cfg, trace, client, now, fault, first)) ==
        if SetsExpiry(fault, first) then DoSetExpiry(cfg, counted, Key(client, cfg.WindowOf(now))) else counted
  {
    hide Run, Do, DoCount, DoSetExpiry, Config.WindowOf, Judged, SetsExpiry;
    var s, judged, key := Run(cfg, trace), Judged(fault, first), Key(client, cfg.WindowOf(now));
    var tick := trace + [Tick(now - s.now)];
    var count := tick + [Count(client, 0, judged)];
    RunAppend(cfg, trace, Tick(now - s.now));
    RunAppend(cfg, tick, Count(client, 0, judged));
    RunAppend(cfg, count, SetExpiry(key));
    TickThenCount(cfg, s, client, now, judged);
    ExpireStep(cfg, Run(cfg, count), key);
  }

  lemma ExpireStep(cfg: Config, s: State, key: Key)
    requires cfg.Valid()
    ensures Do(cfg, s, SetExpiry(key)) == DoSetExpiry(cfg, s, key)
  {
  }

  lemma ExtendedPrefix(cfg: Config, trace: seq<Action>, client: string, now: nat, fault: Fault, first: bool)
    requires cfg.Valid() && Run(cfg, trace).now <= now
    ensures trace <= Extended(cfg, trace, client, now, fault, first)
  {
    hide Run, Judged, SetsExpiry, Config.WindowOf;
  }

  /** What the plain count says about the stored counter at the time of the request. */
  lemma FirstOrNot(cfg: Config, trace: seq<Action>, client: string, now: nat)
    requires cfg.Valid() && Run(cfg, trace).now <= now
    ensures var s, key := Run(cfg, trace).(now := now), Key(client, cfg.WindowOf(now));
      var n := CountFor(cfg, s.log, key);
      && (Live(s, key) <==> n > 0)
      && (Live(s, key) ==> s.store[key].count == n)
  {
    hide Run, Live, CountFor, Config.WindowOf;
    var s := Run(cfg, trace);
    RunAppend(cfg, trace, Tick(now - s.now));
    CounterNeverReset(cfg, trace + [Tick(now - s.now)], Key(client, cfg.WindowOf(now)));
  }

  /** The key's new row, and the entry in the log. */
  lemma DispatchedRow(cfg: Config, s: State, client: string, now: nat, fault: Fault)
    requires cfg.Valid() && s.now == now
    ensures var key := Key(client, cfg.WindowOf(now));
      var count := if Live(s, key) then s.store[key].count + 1 else 1;
      var expiresAt := if Live(s, key) then s.store[key].expiresAt else None;
      var counted := DoCount(cfg, s, client, now, Judged(fault, count == 1));
      && counted.log == s.log + [Request(client, now, now, Judged(fault, count == 1), !Judged(fault, count == 1) || count <= cfg.limit)]
      && counted.store == s.store[key := Entry(count, expiresAt)] && counted.now == now
      && (count == 1 && (Live(s, key) ==> s.store[key].count > 0) ==>
            var expire := DoSetExpiry(cfg, counted, key);
            expire.now == now && expire.log == counted.log && expire.store == s.store[key := Entry(1, Some(now + cfg.Length()))])
  {
    var key := Key(client, cfg.WindowOf(now));
    var count := if Live(s, key) then s.store[key].count + 1 else 1;
    var counted := DoCount(cfg, s, client, now, Judged(fault, count == 1));
    hide Config.WindowOf, Config.Length, Judged;
    if count == 1 && !Live(s, key) {
      assert key in counted.pending && Live(counted, key);
    }
  }

  /** The whole request, in terms of the plain count. */
  lemma DispatchedRight(cfg: Config, trace: seq<Action>, client: string, now: nat, fault: Fault)
    requires cfg.Valid() && Run(cfg, trace).now <= now
    ensures var s, key := Run(cfg, trace), Key(client, cfg.WindowOf(now));
      var n := CountFor(cfg, s.log, key);
      var after := Run(cfg, Extended(cfg, trace, client, now, fault, n == 0));
      && (n > 0 <==> key in s.store && (s.store[key].expiresAt.Some? ==> now < s.store[key].expiresAt.value))
      && (n > 0 ==> s.store[key].count == n) && after.now == now
      && after.log == s.log + [Request(client, now, now, Judged(fault, n == 0), !Judged(fault, n == 0) || n < cfg.limit)]
      && after.store == s.store[key := Entry(n + 1, if n > 0 then s.store[key].expiresAt
                                                    else if SetsExpiry(fault, true) then Some(now + cfg.Length()) else None)]
  {
    hide Run, Extended, DoCount, DoSetExpiry, CountFor, Judged, Config.WindowOf, Config.Length;
    var s, key := Run(cfg, trace), Key(client, cfg.WindowOf(now));
    var n := CountFor(cfg, s.log, key);
    FirstOrNot(cfg, trace, client, now);
    DispatchedRow(cfg, s.(now := now), client, now, fault);
    StepsRun(cfg, trace, client, now, fault, n == 0);
  }

  /** What a request that finds n others counted in its window leaves in the store: one more
      there, and an expiry one window ahead if it was the first and its expire command took
      effect. */
  predicate StoredFor(cfg: Config, fault: Fault, n: nat, key: Key, now: nat, before: map<Key, Entry>, after: map<Key, Entry>) {
    && (n > 0 ==> key in before)
    && after == before[key := Entry(n + 1,
         if n > 0 then before[key].expiresAt
         else if fault == NoFault || fault == ExpireFails(true) then Some(now + cfg.windowSeconds * cfg.ticks)
         else None)]
  }

  class RateLimitMiddleware {
    const cfg: Config
    var store: map<Key, Entry>
    // The machine's state, and the actions that led to it.
    ghost var state: State
    ghost var trace: seq<Action>

    ghost predicate Valid()
      reads this
    {
      cfg.Valid() && state == Run(cfg, trace) && state.store == store
    }

    constructor (cfg: Config)
      requires cfg.Valid()
      ensures Valid() && this.cfg == cfg && trace == []
    {
      this.cfg := cfg;
      store := map[];
      state, trace := FRESH, [];
    }

    /** One request, at the time the store's clock shows. Web-socket and health requests are
        not counted, and nobody is turned away while the store fails. */
    method Dispatch(client: string, exempt: bool, fault: Fault, now: nat) returns (allowed: bool)
      requires Valid() && state.now <= now
      modifies this
      ensures Valid() && old(trace) <= trace
      ensures exempt || fault == Down ==> allowed && store == old(store) && trace == old(trace)
      ensures state.now == if exempt || fault == Down then old(state).now else now
      ensures !exempt && fault != Down ==>
        var key := Key(client, cfg.WindowOf(now));
        var n := CountFor(cfg, old(state).log, key);
        && (fault == NoFault || (fault.ExpireFails? && n > 0) ==> (allowed <==> n < cfg.limit))
        && (fault == ReplyLost || (fault.ExpireFails? && n == 0) ==> allowed)
        && StoredFor(cfg, fault, n, key, now, old(store), store)
        && state.log == old(state).log +
             [Request(client, now, now, fault == NoFault || (fault.ExpireFails? && n > 0), allowed)]
    {
      hide Run, Extended, CountFor, Config.WindowOf;
      if exempt || fault == Down {
        return true;
      }
      var key := Key(client, cfg.WindowOf(now));
      DispatchedRight(cfg, trace, client, now, fault);
      var known := key in store && (store[key].expiresAt.Some? ==> now < store[key].expiresAt.value);
      var current := if known then store[key].count + 1 else 1;
      store := store[key := Entry(current, if known then store[key].expiresAt else None)];
      if SetsExpiry(fault, current == 1) {
        store := store[key := store[key].(expiresAt := Some(now + cfg.Length()))];
      }
      allowed := !(Judged(fault, current == 1) && current > cfg.limit);
      ghost var n := CountFor(cfg, state.log, key);
      assert current == n + 1;
      hide Config.Length;
      assert store == old(store)[key := Entry(n + 1, if n > 0 then old(store)[key].expiresAt
                                                     else if SetsExpiry(fault, true) then Some(now + cfg.Length()) else None)];
      ExtendedPrefix(cfg, trace, client, now, fault, current == 1);
      trace := Extended(cfg, trace, client, now, fault, current == 1);
      state := Run(cfg, trace);
    }
  }

  /** Requests of one client at times within one window, with no fault: whatever came before,
      the n-th request that the window sees passes exactly if n is at most the limit. */
  method ServeWindow(m: RateLimitMiddleware, client: string, times: seq<nat>) returns (verdicts: seq<bool>)
    requires m.Valid() && times != [] && m.state.now <= times[0]
    requires forall i, j :: 0 <= i < j < |times| ==> times[i] <= times[j]
    requires forall i :: 0 <= i < |times| ==> m.cfg.WindowOf(times[i]) == m.cfg.WindowOf(times[0])
    modifies m
    ensures m.Valid() && |verdicts| == |times|
    ensures var before := CountFor(m.cfg, old(m.state).log, Key(client, m.cfg.WindowOf(times[0])));
      forall k :: 0 <= k < |times| ==> (verdicts[k] <==> before + k + 1 <= m.cfg.limit)
  {
    hide CountFor, Run, Config.WindowOf;
    verdicts := [];
    ghost var key := Key(client, m.cfg.WindowOf(times[0]));
    ghost var before := CountFor(m.cfg, m.state.log, key);
    for i := 0 to |times|
      invariant m.Valid() && |verdicts| == i
      invariant i < |times| ==> m.state.now <= times[i]
      invariant CountFor(m.cfg, m.state.log, key) == before + i
      invariant forall k :: 0 <= k < i ==> (verdicts[k] <==> before + k + 1 <= m.cfg.limit)
    {
      ghost var log := m.state.log;
      var allowed := m.Dispatch(client, false, NoFault, times[i]);
      CountForAppend(m.cfg, log, Request(client, times[i], times[i], true, allowed), key);
      verdicts := verdicts + [allowed];
    }
  }
}
