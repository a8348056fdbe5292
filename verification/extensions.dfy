/** Two helpers: an in-place Fisher–Yates shuffle driven by a random number
    generator, and string repetition through a `StringBuilder`. */
module Extensions {
  import opened Common

  // ---------------------------------------------------------------------
  // Shuffle

  /** The values `rng.Next(n)` returns during a shuffle of `length` elements:
      the draw at step `j` lies in `[0, length - j)`, and there is one draw
      per step (`length - 1` steps for two or more elements, none otherwise). */
  predicate ValidDraws(length: nat, draws: seq<nat>) {
    && |draws| + 1 >= length
    && forall j :: 0 <= j < |draws| && j + 1 < length ==> draws[j] < length - j
  }

  /** Exchanges the elements at `i` and `j`, through a temporary as the loop body does. */
  function Swap<T>(s: seq<T>, i: nat, j: nat): (r: seq<T>)
    requires i < |s| && j < |s|
    ensures |r| == |s|
    ensures r[i] == s[j] && r[j] == s[i]
    ensures forall k :: 0 <= k < |s| && k != i && k != j ==> r[k] == s[k]
  {
    s[i := s[j]][j := s[i]]
  }

  /** The shuffle's remaining steps, from the point where `n` elements are
      still unsettled: draw `k` below `n`, settle position `n - 1` by swapping
      it with `k`, and continue with `n - 1`. */
  function ShuffleFrom<T>(s: seq<T>, draws: seq<nat>, n: nat): (r: seq<T>)
    requires n <= |s| && ValidDraws(|s|, draws)
    ensures |r| == |s|
    decreases n
  {
    if n <= 1 then s
    else
      var k := draws[|s| - n];
      ShuffleFrom(Swap(s, n - 1, k), draws, n - 1)
  }

  /** The whole shuffle, as a reference definition. */
  function Shuffled<T>(s: seq<T>, draws: seq<nat>): seq<T>
    requires ValidDraws(|s|, draws)
  {
    ShuffleFrom(s, draws, |s|)
  }

  /** Undoes the steps with at most `n` unsettled elements, last step first. */
  function UnshuffleTo<T>(s: seq<T>, draws: seq<nat>, n: nat): (r: seq<T>)
    requires n <= |s| && ValidDraws(|s|, draws)
    ensures |r| == |s|
    decreases n
  {
    if n <= 1 then s
    else
      var k := draws[|s| - n];
      Swap(UnshuffleTo(s, draws, n - 1), n - 1, k)
  }

  lemma SwapPermutes<T>(s: seq<T>, i: nat, j: nat)
    requires i < |s| && j < |s|
    ensures multiset(Swap(s, i, j)) == multiset(s)
    ensures Swap(Swap(s, i, j), i, j) == s
  {
    if i != j {
      var t := s[i := s[j]];
      assert multiset(t) == multiset(s) - multiset{s[i]} + multiset{s[j]};
      assert multiset(t[j := s[i]]) == multiset(t) - multiset{t[j]} + multiset{s[i]};
    }
  }

  /** The shuffle permutes: same length, same elements with the same multiplicities. */
  lemma {:induction false} ShufflePermutes<T>(s: seq<T>, draws: seq<nat>, n: nat)
    requires n <= |s| && ValidDraws(|s|, draws)
    ensures |ShuffleFrom(s, draws, n)| == |s|
    ensures multiset(ShuffleFrom(s, draws, n)) == multiset(s)
    decreases n
  {
    if n > 1 {
      var k := draws[|s| - n];
      SwapPermutes(s, n - 1, k);
      ShufflePermutes(Swap(s, n - 1, k), draws, n - 1);
    }
  }

  /** Positions at or above `n` are settled: the remaining steps never touch them. */
  lemma {:induction false} SettledUntouched<T>(s: seq<T>, draws: seq<nat>, n: nat)
    requires n <= |s| && ValidDraws(|s|, draws)
    ensures |ShuffleFrom(s, draws, n)| == |s|
    ensures ShuffleFrom(s, draws, n)[n..] == s[n..]
    decreases n
  {
    ShufflePermutes(s, draws, n);
    if n > 1 {
      var k := draws[|s| - n];
      var t := Swap(s, n - 1, k);
      SettledUntouched(t, draws, n - 1);
      assert t[n - 1..] == [t[n - 1]] + t[n..];
      assert t[n..] == s[n..];
    }
  }

  /** With the same draws, undoing the steps in reverse order restores the input. */
  lemma {:induction false} UnshuffleRestores<T>(s: seq<T>, draws: seq<nat>, n: nat)
    requires n <= |s| && ValidDraws(|s|, draws)
    ensures |ShuffleFrom(s, draws, n)| == |s|
    ensures UnshuffleTo(ShuffleFrom(s, draws, n), draws, n) == s
    decreases n
  {
    ShufflePermutes(s, draws, n);
    if n > 1 {
      var k := draws[|s| - n];
      var t := Swap(s, n - 1, k);
      UnshuffleRestores(t, draws, n - 1);
      SwapPermutes(s, n - 1, k);
    }
  }

  /** `Random.Shuffle`: `n` counts down from the length; each step draws `k`
      below `n`, decrements `n`, and swaps positions `n` and `k`. The array
      is a copy of `s`; `draws` are the generator's answers. */
  method Shuffle<T>(s: seq<T>, draws: seq<nat>) returns (r: seq<T>)
    requires ValidDraws(|s|, draws)
    ensures |r| == |s| && multiset(r) == multiset(s)
    ensures |s| <= 1 ==> r == s
    ensures r == Shuffled(s, draws)
    ensures UnshuffleTo(r, draws, |s|) == s
  {
    var a := new T[|s|](i requires 0 <= i < |s| => s[i]);
    var n := |s|;
    assert a[..] == s;
    while n > 1
      invariant 0 <= n <= |s| == a.Length
      invariant ShuffleFrom(a[..], draws, n) == Shuffled(s, draws)
      invariant multiset(a[..]) == multiset(s)
      invariant a[n..] == Shuffled(s, draws)[n..]
      decreases n
    {
      ghost var before := a[..];
      var k := draws[|s| - n];
      n := n - 1;
      var temp := a[n];
      a[n] := a[k];
      a[k] := temp;
      assert a[..] == Swap(before, n, k);
      SwapPermutes(before, n, k);
      SettledUntouched(a[..], draws, n);
    }
    r := a[..];
    UnshuffleRestores(s, draws, |s|);
  }

  // ---------------------------------------------------------------------
  // Repeat

  /** `input` written `count` times in a row. */
  function RepeatSpec(input: string, count: nat): string
    decreases count
  {
    if count == 0 then "" else RepeatSpec(input, count - 1) + input
  }

  lemma MulAtLeast(a: int, m: int)
    requires a >= 1 && m > 0
    ensures a * m >= m
  {
    assert a * m == (a - 1) * m + m;
    assert (a - 1) * m >= 0;
  }

  lemma MulMonotone(a: nat, b: int, c: int)
    requires b <= c
    ensures a * b <= a * c
  {
    assert a * c - a * b == a * (c - b);
  }

  /** Integer division is unique: `q * m + r` with `0 <= r < m` leaves remainder `r`. */
  lemma ModUnique(i: int, m: int, q: int, r: int)
    requires m > 0 && 0 <= r < m && i == q * m + r
    ensures i % m == r
  {
    var q' := i / m;
    assert i == q' * m + i % m;
    if q' < q {
      MulAtLeast(q - q', m);
    } else if q' > q {
      MulAtLeast(q' - q, m);
    }
  }

  lemma {:induction false} RepeatSpecLength(input: string, count: nat)
    ensures |RepeatSpec(input, count)| == |input| * count
    decreases count
  {
    if count > 0 {
      RepeatSpecLength(input, count - 1);
    }
  }

  /** The exact shape of a repetition: its length, and each character taken
      from `input` at the position modulo its length. */
  lemma {:induction false} RepeatSpecIndex(input: string, count: nat)
    ensures |RepeatSpec(input, count)| == |input| * count
    ensures forall i :: 0 <= i < |RepeatSpec(input, count)| ==> RepeatSpec(input, count)[i] == input[i % |input|]
    decreases count
  {
    RepeatSpecLength(input, count);
    if count > 0 {
      RepeatSpecIndex(input, count - 1);
      var prev := RepeatSpec(input, count - 1);
      forall i | 0 <= i < |RepeatSpec(input, count)|
        ensures RepeatSpec(input, count)[i] == input[i % |input|]
      {
        if i >= |prev| {
          ModUnique(i, |input|, count - 1, i - |prev|);
        }
      }
    }
  }

  /** Repetitions add: `a + b` copies are `a` copies followed by `b` copies. */
  lemma {:induction false} RepeatSpecAdd(input: string, a: nat, b: nat)
    ensures RepeatSpec(input, a + b) == RepeatSpec(input, a) + RepeatSpec(input, b)
    decreases b
  {
    if b > 0 {
      RepeatSpecAdd(input, a, b - 1);
      assert RepeatSpec(input, a) + RepeatSpec(input, b - 1) + input
          == RepeatSpec(input, a) + (RepeatSpec(input, b - 1) + input);
    }
  }

  /** Exceptions `Repeat` can raise. */
  datatype RepeatFault =
    | NegativeCapacity  // the builder's initial capacity is negative
    | CapacityExceeded  // the result would be longer than `Int32.MaxValue` characters

  /** `StringExtensions.Repeat`: a builder with capacity `length * count`
      (C# `int` arithmetic, so it may wrap), then `count` appends of `input`;
      a null `input` contributes nothing. */
  method Repeat(input: Option<string>, count: int) returns (r: Result<string, RepeatFault>)
    requires IsInt32(count)
    ensures var piece := if input.Some? then input.value else "";
      && (r == Failure(NegativeCapacity) <==> Wrap32(|piece| * count) < 0)
      && (r == Failure(CapacityExceeded) <==> Wrap32(|piece| * count) >= 0 && |piece| * count > Int32Max)
      && (r.Success? ==> r.value == RepeatSpec(piece, if count > 0 then count else 0))
    ensures r.Success? && count <= 0 ==> r.value == ""
    ensures input.None? || count == 0 ==> r == Success("")
    ensures var piece := if input.Some? then input.value else "";
      count < 0 && |piece| > 0 && |piece| * count >= Int32Min ==> r == Failure(NegativeCapacity)
    ensures r.Success? ==> |r.value| <= Int32Max
  {
    var piece := if input.Some? then input.value else "";
    var capacity := Wrap32(|piece| * count);
    if capacity < 0 {
      return Failure(NegativeCapacity);
    }
    var builder := "";
    var i := 0;
    if count <= 0 {
      MulMonotone(|piece|, count, 0);
    }
    while i < count
      invariant 0 <= i <= (if count > 0 then count else 0)
      invariant builder == RepeatSpec(piece, i)
      invariant |builder| == |piece| * i <= Int32Max
    {
      assert |piece| * (i + 1) == |piece| * i + |piece|;
      if |builder| + |piece| > Int32Max {
        MulMonotone(|piece|, i + 1, count);
        return Failure(CapacityExceeded);
      }
      builder := builder + piece;
      i := i + 1;
    }
    return Success(builder);
  }
}
