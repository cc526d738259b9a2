/**
 The sieve of TPFork/primes.c: a chain of processes joined by pipes, in which each one
 prints the first number it reads and passes on those that it does not divide.

 A pipe is the sequence of numbers written to it before it was closed.
 */
module Primes {

  type Pos = x: nat | x > 0 witness 1

  predicate Divides(d: nat, x: nat)
    requires d > 0
  {
    x % d == 0
  }

  ghost predicate IsPrime(x: nat) {
    x >= 2 && forall d: nat :: 2 <= d < x ==> !Divides(d, x)
  }

  /** What passes a process with `prime`. */
  function Filter(prime: Pos, numbers: seq<Pos>): (r: seq<Pos>)
    ensures |r| <= |numbers|
  {
    if numbers == [] then []
    else
      var n := |numbers| - 1;
      Filter(prime, numbers[..n]) + if Divides(prime, numbers[n]) then [] else [numbers[n]]
  }

  /** What a process and those after it print. No number less than 1 comes through the pipe. */
  function Chain(input: seq<Pos>): seq<Pos>
    decreases |input|
  {
    if input == [] then []
    else [input[0]] + Chain(Filter(input[0], input[1..]))
  }

  /** primes(lectura). The child runs primes on the new pipe and prints after its parent. */
  method RunPrimes(input: seq<Pos>) returns (printed: seq<Pos>)
    ensures printed == Chain(input)
    decreases |input|
  {
    if |input| == 0 {
      return [];
    }
    var primo: nat := input[0];
    printed := [primo];
    var pipe: seq<Pos>, i := [], 1;
    while i < |input|
      invariant 1 <= i <= |input| && pipe == Filter(primo, input[1..i])
    {
      assert input[1..i + 1][..i - 1] == input[1..i];
      var num: nat := input[i];
      if num % primo != 0 {
        pipe := pipe + [num];
      }
      i := i + 1;
    }
    assert input[1..i] == input[1..];
    var rest := RunPrimes(pipe);
    printed := printed + rest;
  }

  /** main: the numbers from 2 to the argument. */
  method Sieve(maxNum: nat) returns (printed: seq<Pos>)
    requires maxNum >= 2
    ensures forall x: nat :: x in printed <==> x <= maxNum && IsPrime(x)
    ensures forall i, j :: 0 <= i < j < |printed| ==> printed[i] < printed[j]
  {
    var pipe: seq<Pos>, i := [], 2;
    while i <= maxNum
      invariant 2 <= i <= maxNum + 1 && |pipe| == i - 2 && forall k :: 0 <= k < |pipe| ==> pipe[k] == k + 2
    {
      pipe := pipe + [i];
      i := i + 1;
    }
    forall x: nat
      ensures x in pipe <==> 2 <= x <= maxNum && NoDivisorBelow(x, 2)
    {
      assert 2 <= x <= maxNum ==> pipe[x - 2] == x;
    }
    ChainIsPrimes(pipe, 2, maxNum);
    printed := RunPrimes(pipe);
  }

  // ------------------------------------------------------------------
  // What comes out
  // ------------------------------------------------------------------

  ghost predicate NoDivisorBelow(x: nat, m: nat) {
    forall d: nat :: 2 <= d < m ==> !Divides(d, x)
  }

  ghost predicate Ascending(s: seq<Pos>) {
    forall i, j :: 0 <= i < j < |s| ==> s[i] < s[j]
  }

  /** The numbers in the range that nothing below `m` divides. */
  ghost predicate Candidates(s: seq<Pos>, m: nat, maxNum: nat) {
    Ascending(s) && forall x: nat :: x in s <==> m <= x <= maxNum && NoDivisorBelow(x, m)
  }

  lemma {:induction false} FilterKeeps(prime: Pos, s: seq<Pos>)
    ensures forall x: nat :: x in Filter(prime, s) <==> x in s && !Divides(prime, x)
    ensures Ascending(s) ==> Ascending(Filter(prime, s))
    decreases |s|
  {
    if s != [] {
      var n := |s| - 1;
      var front := s[..n];
      FilterKeeps(prime, front);
      assert s == front + [s[n]];
      if Ascending(s) {
        assert Ascending(front) && forall k :: 0 <= k < n ==> front[k] < s[n];
        assert forall k :: 0 <= k < |Filter(prime, front)| ==> Filter(prime, front)[k] in front;
      }
    }
  }

  lemma DividesThrough(e: nat, d: nat, x: nat)
    requires e > 0 && d > 0 && Divides(e, d) && Divides(d, x)
    ensures Divides(e, x)
  {
    var a, b := d / e, x / d;
    assert d == e * a && x == d * b;
    assert x == e * (a * b);
    Multiple(x, a * b, e);
  }

  lemma Multiple(x: nat, q: nat, e: nat)
    requires e > 0 && x == e * q
    ensures x % e == 0
  {
    var r := x % e;
    assert x == e * (x / e) + r;
    var k := q - x / e;
    assert e * k == r;
    assert (k > 0 ==> e * k >= e) && (k < 0 ==> e * k < 0);
  }

  /** Up to the first candidate, the bound may be raised: what is skipped has a smaller divisor. */
  lemma {:induction false} RaiseBound(x: nat, m: nat, p: nat, maxNum: nat)
    requires 2 <= m <= p <= maxNum && NoDivisorBelow(x, m)
    requires forall y: nat :: m <= y < p ==> !NoDivisorBelow(y, m)
    ensures NoDivisorBelow(x, p)
  {
    forall d: nat | 2 <= d < p
      ensures !Divides(d, x)
    {
      if d >= m && Divides(d, x) {
        assert !NoDivisorBelow(d, m);
        var e: nat :| 2 <= e < m && Divides(e, d);
        DividesThrough(e, d, x);
      }
    }
  }

  /** The next process has the candidates for the next bound. */
  lemma NextCandidates(s: seq<Pos>, m: nat, maxNum: nat)
    requires Candidates(s, m, maxNum) && 2 <= m && s != []
    ensures var p := s[0];
      && m <= p <= maxNum && IsPrime(p) && (forall y: nat :: m <= y < p ==> !IsPrime(y))
      && Candidates(Filter(p, s[1..]), p + 1, maxNum)
  {
    var p, rest := s[0], s[1..];
    assert p in s;
    forall y: nat | m <= y < p
      ensures !NoDivisorBelow(y, m)
    {
      assert y !in s by {
        assert forall k :: 0 <= k < |s| ==> s[k] >= p;
      }
    }
    RaiseBound(p, m, p, maxNum);
    forall y: nat | m <= y < p
      ensures !IsPrime(y)
    {
      assert !NoDivisorBelow(y, m);
    }
    FilterKeeps(p, rest);
    assert forall i :: 0 <= i < |rest| ==> rest[i] == s[i + 1];
    forall x: nat
      ensures x in Filter(p, rest) <==> p + 1 <= x <= maxNum && NoDivisorBelow(x, p + 1)
    {
      assert x in s <==> x == p || x in rest;
      if p < x <= maxNum && NoDivisorBelow(x, m) {
        RaiseBound(x, m, p, maxNum);
      }
      assert NoDivisorBelow(x, p + 1) ==> NoDivisorBelow(x, m) && !Divides(p, x);
    }
  }

  /** The chain prints the primes of the range, in ascending order. */
  lemma {:induction false} ChainIsPrimes(s: seq<Pos>, m: nat, maxNum: nat)
    requires Candidates(s, m, maxNum) && 2 <= m
    ensures Ascending(Chain(s)) && forall x: nat :: x in Chain(s) <==> m <= x <= maxNum && IsPrime(x)
    decreases |s|
  {
    if s == [] {
      forall x: nat | m <= x <= maxNum
        ensures !IsPrime(x)
      {
        assert x !in s;
      }
    } else {
      var p := s[0];
      NextCandidates(s, m, maxNum);
      ChainIsPrimes(Filter(p, s[1..]), p + 1, maxNum);
      assert Chain(s) == [p] + Chain(Filter(p, s[1..]));
      assert forall k :: 0 < k < |Chain(s)| ==> Chain(s)[k] in Chain(Filter(p, s[1..]));
    }
  }
}
