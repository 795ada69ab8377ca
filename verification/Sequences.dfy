/** Sums, counts and concatenations over sequences. Every recursion peels the last
    element, so that a loop over a growing prefix follows it directly. */
module Sequences {

  // ---- Taking apart and putting together ----------------------------------

  lemma SplitLast<T>(s: seq<T>)
    requires s != []
    ensures s == s[..|s| - 1] + [s[|s| - 1]]
  {
  }

  lemma TakeNext<T>(s: seq<T>, i: nat)
    requires i < |s|
    ensures s[..i + 1] == s[..i] + [s[i]]
    ensures s[..i + 1][..i] == s[..i]
  {
  }

  lemma TakeOfTake<T>(s: seq<T>, n: nat, i: nat)
    requires i < n <= |s|
    ensures s[..n][..i] == s[..i] && s[..n][i] == s[i]
  {
  }

  lemma TakeAll<T>(s: seq<T>)
    ensures s[..|s|] == s
  {
  }

  lemma AppendNothing<T>(s: seq<T>, t: seq<T>)
    requires t == []
    ensures s + t == s
  {
  }

  lemma TakeOfAppend<T>(s: seq<T>, x: T)
    ensures (s + [x])[..|s|] == s
  {
  }

  lemma AppendAssoc<T>(a: seq<T>, b: seq<T>, c: seq<T>)
    ensures a + b + c == a + (b + c)
  {
  }

  /** What is next moves from what remains to what is there. */
  lemma MoveOver<T>(a: seq<T>, c: seq<T>, rest: seq<T>, remaining: seq<T>, whole: seq<T>)
    requires a + remaining == whole && remaining == c + rest
    ensures a + c + rest == whole
  {
  }

  lemma TakeFront<T>(a: seq<T>, b: seq<T>)
    ensures (a + b)[..|a|] == a
  {
  }

  lemma ConsTake<T>(x: T, s: seq<T>, k: nat)
    requires 0 < k <= |s| + 1
    ensures ([x] + s)[..k] == [x] + s[..k - 1]
    ensures ([x] + s)[k..] == s[k - 1..]
  {
  }

  lemma InitOfAppend<T>(s: seq<T>, t: seq<T>)
    requires t != []
    ensures (s + t)[..|s + t| - 1] == s + t[..|t| - 1]
    ensures (s + t)[|s + t| - 1] == t[|t| - 1]
  {
  }

  // ---- Searching ----------------------------------------------------------

  /** The first position of a value, or the length if it does not occur. */
  function IndexOf<T(==)>(s: seq<T>, x: T): (i: nat)
    ensures i <= |s|
    ensures i < |s| ==> s[i] == x
    ensures forall j :: 0 <= j < i ==> s[j] != x
  {
    if s == [] then 0
    else
      var i := IndexOf(s[..|s| - 1], x);
      if i < |s| - 1 || s[|s| - 1] == x then i else |s|
  }

  // ---- Sums, counts, concatenations ---------------------------------------

  function Sum(s: seq<int>): int {
    if s == [] then 0 else Sum(s[..|s| - 1]) + s[|s| - 1]
  }

  lemma {:induction false} SumAppend(s: seq<int>, t: seq<int>)
    ensures Sum(s + t) == Sum(s) + Sum(t)
  {
    if t == [] {
      assert s + t == s;
    } else {
      InitOfAppend(s, t);
      SumAppend(s, t[..|t| - 1]);
    }
  }

  function Repeat<T>(v: T, n: nat): (r: seq<T>)
    ensures |r| == n && forall i :: 0 <= i < n ==> r[i] == v
  {
    seq(n, _ => v)
  }

  function CountTrue(b: seq<bool>): nat {
    if b == [] then 0 else CountTrue(b[..|b| - 1]) + if b[|b| - 1] then 1 else 0
  }

  lemma {:induction false} CountTrueAppend(a: seq<bool>, b: seq<bool>)
    ensures CountTrue(a + b) == CountTrue(a) + CountTrue(b)
  {
    if b == [] {
      assert a + b == a;
    } else {
      InitOfAppend(a, b);
      CountTrueAppend(a, b[..|b| - 1]);
    }
  }

  lemma {:induction false} CountTrueRepeat(v: bool, n: nat)
    ensures CountTrue(Repeat(v, n)) == if v then n else 0
  {
    if n > 0 {
      assert Repeat(v, n)[..n - 1] == Repeat(v, n - 1);
      CountTrueRepeat(v, n - 1);
    }
  }

  /** Setting a clear bit raises the count by one. */
  lemma CountTrueSet(b: seq<bool>, i: nat)
    requires i < |b| && !b[i]
    ensures CountTrue(b[i := true]) == CountTrue(b) + 1
  {
    var front, back := b[..i], b[i + 1..];
    assert b == front + [false] + back;
    assert b[i := true] == front + [true] + back;
    CountTrueAppend(front + [false], back);
    CountTrueAppend(front + [true], back);
    CountTrueAppend(front, [false]);
    CountTrueAppend(front, [true]);
    assert CountTrue([true]) == 1 && CountTrue([false]) == 0;
  }

  function Concat<T>(ss: seq<seq<T>>): seq<T> {
    if ss == [] then [] else Concat(ss[..|ss| - 1]) + ss[|ss| - 1]
  }

  lemma {:induction false} ConcatAppend<T>(ss: seq<seq<T>>, ts: seq<seq<T>>)
    ensures Concat(ss + ts) == Concat(ss) + Concat(ts)
  {
    if ts == [] {
      assert ss + ts == ss;
    } else {
      InitOfAppend(ss, ts);
      ConcatAppend(ss, ts[..|ts| - 1]);
      AppendAssoc(Concat(ss), Concat(ts[..|ts| - 1]), ts[|ts| - 1]);
    }
  }

  lemma ConcatCons<T>(c: seq<T>, cs: seq<seq<T>>)
    ensures Concat([c] + cs) == c + Concat(cs)
  {
    ConcatAppend([c], cs);
    assert [c][..0] == [];
  }
}
