/** Round-robin placement over the online extents: one counter, wrapping at 2^64. */
module Placement {
  import opened Arithmetic
  import opened MachineTypes
  import opened Residues
  import opened Sequences

  datatype ExtentStatus = ONLINE | OFFLINE | MAINTENANCE | EVACUATING

  datatype Extent = Extent(
    extentId: string,
    totalBytes: uint64,
    usedBytes: uint64,
    status: ExtentStatus,
    isPerformanceTier: bool)
  {
    /** Free space as an unsigned difference: an overfull extent wraps round. */
    function Free(): uint64 {
      (totalBytes - usedBytes) % TWO_64
    }
  }

  /** The positions of the online extents. */
  function Online(extents: seq<Extent>): seq<nat> {
    if extents == [] then []
    else Online(extents[..|extents| - 1]) + if extents[|extents| - 1].status == ONLINE then [|extents| - 1] else []
  }

  lemma {:induction false} OnlineListed(extents: seq<Extent>)
    ensures forall k :: 0 <= k < |Online(extents)| ==> Online(extents)[k] < |extents| && extents[Online(extents)[k]].status == ONLINE
    ensures forall j, k :: 0 <= j < k < |Online(extents)| ==> Online(extents)[j] < Online(extents)[k]
    ensures forall q :: 0 <= q < |extents| && extents[q].status == ONLINE ==> q in Online(extents)
  {
    if extents != [] {
      var n := |extents| - 1;
      OnlineListed(extents[..n]);
      var front, all := Online(extents[..n]), Online(extents);
      assert all == front + if extents[n].status == ONLINE then [n] else [];
      forall q | 0 <= q < |extents| && extents[q].status == ONLINE ensures q in all {
        if q < n {
          assert extents[..n][q] == extents[q];
          assert q in front;
        } else {
          assert all[|front|] == n;
        }
      }
      hide Online;
    }
  }

  lemma OnlinePrefix(extents: seq<Extent>, i: nat)
    requires i < |extents|
    ensures Online(extents[..i + 1]) == Online(extents[..i]) + if extents[i].status == ONLINE then [i] else []
  {
    TakeNext(extents, i);
  }

  lemma {:induction false} OnlinePrefixOf(extents: seq<Extent>, i: nat)
    requires i <= |extents|
    ensures Online(extents[..i]) <= Online(extents)
    decreases |extents| - i
  {
    if i < |extents| {
      OnlinePrefix(extents, i);
      OnlinePrefixOf(extents, i + 1);
    } else {
      assert extents[..i] == extents;
    }
  }

  /** An online extent stands in the list behind the online ones before it. */
  lemma OnlineAt(extents: seq<Extent>, i: nat)
    requires i < |extents| && extents[i].status == ONLINE
    ensures |Online(extents[..i])| < |Online(extents)| && Online(extents)[|Online(extents[..i])|] == i
  {
    OnlinePrefix(extents, i);
    OnlinePrefixOf(extents, i + 1);
    hide Online;
  }

  /** The extent that a counter value selects. */
  function Chosen(extents: seq<Extent>, counter: nat): (q: nat)
    requires Online(extents) != []
    ensures q < |extents| && extents[q].status == ONLINE
  {
    OnlineListed(extents);
    Online(extents)[counter % |Online(extents)|]
  }

  // ---- Fairness ----------------------------------------------------------

  /** How often extent q is chosen in k consecutive selections. */
  function TimesChosen(extents: seq<Extent>, counter: uint64, k: nat, q: nat): nat
    requires Online(extents) != []
  {
    if k == 0 then 0
    else
      TimesChosen(extents, counter, k - 1, q)
      + if Chosen(extents, (counter + k - 1) % TWO_64) == q then 1 else 0
  }

  /** Among the first x values of a counter that starts at 0 and wraps at 2^64, those that
      leave remainder p. */
  function Passed(x: nat, m: nat, p: nat): nat
    requires m > 0
  {
    x / TWO_64 * Below(TWO_64, m, p) + Below(x % TWO_64, m, p)
  }

  lemma WrapStep(x: nat)
    ensures if x % TWO_64 + 1 < TWO_64 then (x + 1) / TWO_64 == x / TWO_64 && (x + 1) % TWO_64 == x % TWO_64 + 1
            else (x + 1) / TWO_64 == x / TWO_64 + 1 && (x + 1) % TWO_64 == 0
  {
  }

  lemma PassedStep(x: nat, m: nat, p: nat)
    requires p < m
    ensures Passed(x + 1, m, p) == Passed(x, m, p) + if (x % TWO_64) % m == p then 1 else 0
  {
    WrapStep(x);
    BelowStep(x % TWO_64, m, p);
    assert Below(0, m, p) == 0;
    hide Below;
    if x % TWO_64 + 1 == TWO_64 {
      Distribute(x / TWO_64, 1, Below(TWO_64, m, p));
    }
  }

  /** Which counter values choose the p-th online extent. */
  lemma ChosenWhen(extents: seq<Extent>, counter: nat, p: nat)
    requires p < |Online(extents)|
    ensures Chosen(extents, counter) == Online(extents)[p] <==> counter % |Online(extents)| == p
  {
    OnlineListed(extents);
    hide Online;
  }

  /** How often an extent is chosen, whatever the counter does. */
  lemma {:induction false} TimesChosenFormula(extents: seq<Extent>, counter: uint64, k: nat, p: nat)
    requires p < |Online(extents)|
    ensures var m := |Online(extents)|;
      TimesChosen(extents, counter, k, Online(extents)[p]) == Passed(counter + k, m, p) - Passed(counter, m, p)
  {
    if k > 0 {
      TimesChosenFormula(extents, counter, k - 1, p);
      ChosenWhen(extents, (counter + k - 1) % TWO_64, p);
      PassedStep(counter + k - 1, |Online(extents)|, p);
      hide Online, Chosen, Passed;
    }
  }

  /** Every online extent is chosen floor(k / m) or ceil(k / m) times. */
  ghost predicate Fair(extents: seq<Extent>, counter: uint64, k: nat)
    requires Online(extents) != []
  {
    var m := |Online(extents)|;
    forall p :: 0 <= p < m ==> k / m <= TimesChosen(extents, counter, k, Online(extents)[p]) <= (k + m - 1) / m
  }

  /** With w wraps, the first selection at remainder s, the one behind the last at v, and
      2^64 leaving r: does every remainder come up equally often, give or take one? */
  predicate EvenParts(w: nat, r: nat, s: nat, v: nat) {
    || w == 0 || r == 0
    || (w == 1 && (v == 0 || r <= s <= v || v <= s <= r))
    || (w == 2 && v == 0 && s == r)
  }

  /** The counter does not wrap, or m divides 2^64, or what is counted twice around the
      wrap makes up for what is left out. */
  predicate EvenCounter(counter: uint64, k: nat, m: nat)
    requires m > 0
  {
    EvenParts((counter + k) / TWO_64, TWO_64 % m, counter % m, (counter + k) % TWO_64 % m)
  }

  /** What remainder p gets beyond what all remainders get. */
  function Extra(w: nat, r: nat, s: nat, v: nat, p: nat): int {
    (if p < r then w else 0) + (if p < v then 1 else 0) - if p < s then 1 else 0
  }

  /** What all remainders get. */
  function Base(counter: uint64, k: nat, m: nat): int
    requires m > 0
  {
    (counter + k) / TWO_64 * (TWO_64 / m) + (counter + k) % TWO_64 / m - counter / m
  }

  lemma PassedParts(counter: uint64, k: nat, m: nat, p: nat)
    requires p < m
    ensures Passed(counter + k, m, p) - Passed(counter, m, p) ==
      Base(counter, k, m) + Extra((counter + k) / TWO_64, TWO_64 % m, counter % m, (counter + k) % TWO_64 % m, p)
  {
    Distribute(TWO_64 / m, if p < TWO_64 % m then 1 else 0, (counter + k) / TWO_64);
    assert counter / TWO_64 == 0 && counter % TWO_64 == counter;
  }

  lemma TotalParts(counter: uint64, k: nat, m: nat)
    requires m > 0
    ensures k == m * Base(counter, k, m) + (counter + k) / TWO_64 * (TWO_64 % m) + (counter + k) % TWO_64 % m - counter % m
  {
    var w, b := (counter + k) / TWO_64, (counter + k) % TWO_64;
    TotalOf(k, m, counter, w, b, TWO_64 / m, TWO_64 % m, b / m, b % m, counter / m, counter % m);
  }

  lemma TotalOf(k: nat, m: nat, c: nat, w: nat, b: nat, q: nat, r: nat, qb: nat, v: nat, qc: nat, s: nat)
    requires c + k == TWO_64 * w + b && TWO_64 == m * q + r && b == m * qb + v && c == m * qc + s
    ensures k == m * (w * q + qb - qc) + w * r + v - s
  {
    Distribute(m * q, r, w);
    MulAssoc(m, q, w);
    assert m * (w * q + qb - qc) == m * (w * q) + m * qb - m * qc;
  }

  lemma EvenIsFair(w: nat, r: nat, s: nat, v: nat, m: nat, k: nat, base: int, p: nat)
    requires r < m && s < m && v < m && p < m && k == m * base + w * r + v - s
    requires EvenParts(w, r, s, v)
    ensures k / m <= base + Extra(w, r, s, v, p) <= (k + m - 1) / m
  {
    assert w == 0 || r == 0 ==> w * r == 0;
    NearMultiple(k, m, base, w * r + v - s);
  }

  /** Otherwise two remainders differ by two or more. */
  lemma UnevenParts(w: nat, r: nat, s: nat, v: nat, m: nat) returns (p: nat, q: nat)
    requires r < m && s < m && v < m && !EvenParts(w, r, s, v)
    ensures p < m && q < m && Extra(w, r, s, v, p) >= Extra(w, r, s, v, q) + 2
  {
    if w == 1 {
      p := if s < r && s < v then s else 0;
      q := if s < r && s < v then m - 1 else if r < v then v else r;
    } else if w == 2 && v == 0 && s > 0 {
      p := if s < r then s else 0;
      q := if s < r then m - 1 else r;
    } else {
      p, q := 0, m - 1;
    }
  }

  lemma FairExactly(extents: seq<Extent>, counter: uint64, k: nat, base: int, w: nat, r: nat, s: nat, v: nat)
    requires Online(extents) != []
    requires forall p :: 0 <= p < |Online(extents)| ==>
      TimesChosen(extents, counter, k, Online(extents)[p]) == base + Extra(w, r, s, v, p)
    requires var m := |Online(extents)|; r < m && s < m && v < m && k == m * base + w * r + v - s
    ensures Fair(extents, counter, k) <==> EvenParts(w, r, s, v)
  {
    hide TimesChosen, Extra, Online, EvenParts;
    var m := |Online(extents)|;
    if EvenParts(w, r, s, v) {
      forall p | 0 <= p < m ensures k / m <= base + Extra(w, r, s, v, p) <= (k + m - 1) / m {
        EvenIsFair(w, r, s, v, m, k, base, p);
      }
    } else {
      var p, q := UnevenParts(w, r, s, v, m);
      RoundedUp(k, m);
      assert TimesChosen(extents, counter, k, Online(extents)[p]) >= TimesChosen(extents, counter, k, Online(extents)[q]) + 2;
    }
  }

  lemma NoWrapIsEven(counter: uint64, k: nat, m: nat)
    requires m > 0 && counter + k < TWO_64
    ensures EvenCounter(counter, k, m)
  {
  }

  /** Over k consecutive selections with m extents online, each of them is chosen
      floor(k / m) or ceil(k / m) times if and only if the counter is even in this sense;
      whenever it does not wrap, it is. */
  lemma RoundRobinFair(extents: seq<Extent>, counter: uint64, k: nat)
    requires Online(extents) != []
    ensures Fair(extents, counter, k) <==> EvenCounter(counter, k, |Online(extents)|)
    ensures counter + k < TWO_64 ==> EvenCounter(counter, k, |Online(extents)|)
  {
    hide TimesChosen, Base, Extra, Online, EvenParts, Fair;
    var m := |Online(extents)|;
    var w, r, s, v := (counter + k) / TWO_64, TWO_64 % m, counter % m, (counter + k) % TWO_64 % m;
    TotalParts(counter, k, m);
    forall p | 0 <= p < m
      ensures TimesChosen(extents, counter, k, Online(extents)[p]) == Base(counter, k, m) + Extra(w, r, s, v, p)
    {
      TimesChosenFormula(extents, counter, k, p);
      PassedParts(counter, k, m, p);
    }
    FairExactly(extents, counter, k, Base(counter, k, m), w, r, s, v);
    if counter + k < TWO_64 { NoWrapIsEven(counter, k, m); }
  }

  /** Where the counter wraps and m does not divide 2^64, the same extent can come up twice
      in a row. */
  lemma WrapRepeats(extents: seq<Extent>)
    requires |Online(extents)| == 3
    ensures !EvenCounter(TWO_64 - 1, 2, 3)
    ensures TimesChosen(extents, TWO_64 - 1, 2, Online(extents)[0]) == 2 > (2 + 3 - 1) / 3
  {
    assert (TWO_64 - 1) % 3 == 0;
    assert (TWO_64 - 1 + 1) % TWO_64 == 0;
    assert Chosen(extents, TWO_64 - 1) == Chosen(extents, 0) == Online(extents)[0];
    assert TimesChosen(extents, TWO_64 - 1, 1, Online(extents)[0]) == 1;
  }

  // ---- A counter shared by several repositories --------------------------

  /** The counter value that the j-th selection sees when each takes every stride-th. */
  function SharedValue(counter: uint64, stride: nat, j: nat): nat {
    counter + stride * j
  }

  /** How often extent q is chosen in k selections that see every stride-th value. */
  function TimesSeen(extents: seq<Extent>, counter: uint64, stride: nat, k: nat, q: nat): nat
    requires Online(extents) != []
  {
    if k == 0 then 0
    else
      TimesSeen(extents, counter, stride, k - 1, q)
      + if Chosen(extents, SharedValue(counter, stride, k - 1) % TWO_64) == q then 1 else 0
  }

  lemma SharedValueStep(counter: uint64, stride: nat, k: nat)
    requires k > 0
    ensures SharedValue(counter, stride, k) == SharedValue(counter, stride, k - 1) + stride
  {
    assert stride * k == stride * (k - 1) + stride;
  }

  lemma NoWrapYet(counter: uint64, stride: nat, k: nat)
    requires k > 0 && SharedValue(counter, stride, k) < TWO_64
    ensures SharedValue(counter, stride, k - 1) < TWO_64
    ensures SharedValue(counter, stride, k - 1) % TWO_64 == SharedValue(counter, stride, k - 1)
  {
    hide SharedValue;
    SharedValueStep(counter, stride, k);
    SmallValue(SharedValue(counter, stride, k - 1));
  }

  lemma SmallValue(x: nat)
    ensures x < TWO_64 ==> x % TWO_64 == x
  {
  }

  lemma {:induction false} SeenIsHit(extents: seq<Extent>, counter: uint64, stride: nat, k: nat, p: nat)
    requires p < |Online(extents)| && SharedValue(counter, stride, k) < TWO_64
    ensures TimesSeen(extents, counter, stride, k, Online(extents)[p]) == Hits(counter, stride, k, |Online(extents)|, p)
  {
    if k > 0 {
      NoWrapYet(counter, stride, k);
      SeenIsHit(extents, counter, stride, k - 1, p);
      ChosenWhen(extents, SharedValue(counter, stride, k - 1), p);
      hide Online, Chosen;
    }
  }

  ghost predicate SeenFairly(extents: seq<Extent>, counter: uint64, stride: nat, k: nat)
    requires Online(extents) != []
  {
    var m := |Online(extents)|;
    forall p :: 0 <= p < m ==> k / m <= TimesSeen(extents, counter, stride, k, Online(extents)[p]) <= (k + m - 1) / m
  }

  lemma CoprimeSeenFairly(extents: seq<Extent>, counter: uint64, stride: nat, k: nat)
    requires Online(extents) != [] && SharedValue(counter, stride, k) < TWO_64 && Coprime(stride, |Online(extents)|)
    ensures SeenFairly(extents, counter, stride, k)
  {
    var m := |Online(extents)|;
    forall p | 0 <= p < m
      ensures k / m <= TimesSeen(extents, counter, stride, k, Online(extents)[p]) <= (k + m - 1) / m
    {
      SeenIsHit(extents, counter, stride, k, p);
      EvenHits(counter, stride, k, m, p);
    }
  }

  /** A repository whose selections see every stride-th value of the shared counter serves
      its m extents evenly, for any number of selections before the wrap, if and only if
      the stride has no common divisor with m. */
  lemma SharedCounterFair(extents: seq<Extent>, counter: uint64, stride: nat)
    requires Online(extents) != [] && SharedValue(counter, stride, |Online(extents)|) < TWO_64
    ensures Coprime(stride, |Online(extents)|) <==>
      forall k: nat :: SharedValue(counter, stride, k) < TWO_64 ==> SeenFairly(extents, counter, stride, k)
  {
    var m := |Online(extents)|;
    if Coprime(stride, m) {
      forall k: nat | SharedValue(counter, stride, k) < TWO_64 ensures SeenFairly(extents, counter, stride, k) {
        CoprimeSeenFairly(extents, counter, stride, k);
      }
    } else {
      var d :| 1 < d <= m && stride % d == 0 && m % d == 0;
      var p := if counter % d == 0 then 1 else 0;
      SharedCounterStarves(extents, counter, stride, d, m, p);
      assert !SeenFairly(extents, counter, stride, m);
    }
  }

  /** With a common divisor d, only every d-th extent is ever chosen, and this goes on
      over the wrap when d divides 2^64. */
  lemma {:induction false} SharedCounterStarves(extents: seq<Extent>, counter: uint64, stride: nat, d: nat, k: nat, p: nat)
    requires p < |Online(extents)|
    requires SharedValue(counter, stride, k) < TWO_64 || (d > 0 && TWO_64 % d == 0)
    requires d > 0 && stride % d == 0 && |Online(extents)| % d == 0 && p % d != counter % d
    ensures TimesSeen(extents, counter, stride, k, Online(extents)[p]) == 0
  {
    if k > 0 {
      hide Online, Chosen, SharedValue;
      if SharedValue(counter, stride, k) < TWO_64 { NoWrapYet(counter, stride, k); }
      SharedCounterStarves(extents, counter, stride, d, k - 1, p);
      StaysOffExtent(counter, stride, d, SharedValue(counter, stride, k - 1), |Online(extents)|, k - 1, p);
      ChosenWhen(extents, SharedValue(counter, stride, k - 1) % TWO_64, p);
    }
  }

  lemma StaysOffExtent(counter: uint64, stride: nat, d: nat, x: nat, m: nat, j: nat, p: nat)
    requires x == SharedValue(counter, stride, j) && m > 0 && d > 0 && stride % d == 0 && m % d == 0
    requires p % d != counter % d && (x < TWO_64 || TWO_64 % d == 0)
    ensures (x % TWO_64) % m != p
  {
    StrideKeepsRemainder(counter, stride, j, d);
    RemainderOfRemainder(x % TWO_64, m, d);
    if x >= TWO_64 { RemainderOfRemainder(x, TWO_64, d); }
  }
}
