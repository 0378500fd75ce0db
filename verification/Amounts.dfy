// decompose_amount_into_digits: a 64-bit amount as its decimal digits, with the low ones gathered into dust.

module Amounts {
  import opened Arithmetic

  const TWO64: nat := 0x1_0000_0000_0000_0000

  // A call of one of the two handlers.
  datatype Event = Dust(value: nat) | Chunk(value: nat)

  function Pow10(n: nat): (p: nat)
    ensures p > 0
    decreases n
  {
    if n == 0 then 1 else 10 * Pow10(n - 1)
  }

  /** The nonzero digits of rest as chunks, the lowest worth `order` a unit. */
  function Chunks(rest: nat, order: nat): (r: seq<nat>)
    requires order > 0
    decreases rest
  {
    if rest == 0 then []
    else (if rest % 10 == 0 then [] else [rest % 10 * order]) + Chunks(rest / 10, order * 10)
  }

  function Sum(s: seq<nat>): nat {
    if |s| == 0 then 0 else s[0] + Sum(s[1..])
  }

  lemma SumJoins(s: seq<nat>, t: seq<nat>)
    ensures Sum(s + t) == Sum(s) + Sum(t)
  {
    if |s| == 0 {
      assert s + t == t;
    } else {
      SumJoins(s[1..], t);
      assert (s + t)[1..] == s[1..] + t;
    }
  }

  /** Chunks add up to the number they are the digits of. */
  lemma {:induction false} ChunksSum(rest: nat, order: nat)
    requires order > 0
    ensures Sum(Chunks(rest, order)) == rest * order
    decreases rest
  {
    hide Sum;
    EmptySum();
    if rest > 0 {
      var head := if rest % 10 == 0 then [] else [rest % 10 * order];
      ChunksSum(rest / 10, order * 10);
      SumJoins(head, Chunks(rest / 10, order * 10));
      OneSum(rest % 10 * order);
      Recomposed(rest, order);
    }
  }

  lemma EmptySum()
    ensures Sum([]) == 0
  {
  }

  lemma OneSum(x: nat)
    ensures Sum([x]) == x
  {
  }

  /** Chunks are worth at least a unit each, and increase. */
  lemma {:induction false} ChunksIncrease(rest: nat, order: nat)
    requires order > 0
    ensures forall i :: 0 <= i < |Chunks(rest, order)| ==> Chunks(rest, order)[i] >= order
    ensures forall i, j :: 0 <= i < j < |Chunks(rest, order)| ==> Chunks(rest, order)[i] < Chunks(rest, order)[j]
    decreases rest
  {
    if rest > 0 {
      ChunksIncrease(rest / 10, order * 10);
      DigitBounds(rest % 10, order);
    }
  }

  lemma DigitBounds(d: nat, order: nat)
    requires d < 10 && order > 0
    ensures d > 0 ==> order <= d * order < order * 10
  {
  }

  lemma Recomposed(rest: nat, order: nat)
    ensures rest % 10 * order + rest / 10 * (order * 10) == rest * order
  {
    assert rest == rest / 10 * 10 + rest % 10;
    assert (rest / 10 * 10 + rest % 10) * order == rest / 10 * 10 * order + rest % 10 * order;
    assert rest / 10 * 10 * order == rest / 10 * (order * 10);
  }

  function AsChunks(s: seq<nat>): (r: seq<Event>)
    ensures |r| == |s| && forall i :: 0 <= i < |s| ==> r[i] == Chunk(s[i])
  {
    seq(|s|, i requires 0 <= i < |s| => Chunk(s[i]))
  }

  function WithDust(dust: nat, chunks: seq<nat>): seq<Event> {
    (if dust == 0 then [] else [Dust(dust)]) + AsChunks(chunks)
  }

  function Quotient(x: nat, m: nat): nat
    requires m > 0
  {
    x / m
  }

  /** The digits of x from position n up, and those below. */
  function Front(x: nat, n: nat): (q: nat) { Quotient(x, Pow10(n)) }

  function Low(x: nat, n: nat): (r: nat) { x % Pow10(n) }

  /** The digits below position k make dust, and they are as many as the threshold lets through. */
  predicate Cuts(amount: nat, threshold: nat, k: nat) {
    Low(amount, k) <= threshold && (amount >= Pow10(k) ==> Low(amount, k + 1) > threshold)
  }

  lemma Parts(x: nat, n: nat)
    ensures x == Pow10(n) * Front(x, n) + Low(x, n) && Low(x, n) < Pow10(n)
    ensures Front(x, n) == 0 <==> x < Pow10(n)
    ensures Low(x, n) <= x
  {
    hide Pow10;
    Ordered(Pow10(n), 1, Front(x, n));
    Ordered(Pow10(n), 0, Front(x, n));
  }

  /** Taking digit n off the front part and putting it on top of the low part. */
  lemma DigitStep(amount: nat, n: nat)
    ensures Low(amount, n + 1) == Low(amount, n) + Front(amount, n) % 10 * Pow10(n)
    ensures Front(amount, n + 1) == Front(amount, n) / 10
  {
    var p, q, r := Pow10(n), Front(amount, n), Low(amount, n);
    Parts(amount, n);
    var d, h := q % 10, q / 10;
    Regrouped(p, h, d);
    Ordered(p, d, 9);
    Division(amount, 10 * p, h, p * d + r);
  }

  lemma Regrouped(p: int, h: int, d: int)
    ensures p * (10 * h + d) == 10 * p * h + p * d
  {
  }

  lemma {:induction false} LowParts(amount: nat, k: nat, n: nat)
    requires k <= n
    ensures Low(amount, k) <= Low(amount, n)
    decreases n
  {
    hide Low, Front, Pow10;
    if k < n {
      LowParts(amount, k, n - 1);
      DigitStep(amount, n - 1);
      NonNegative(Front(amount, n - 1) % 10, Pow10(n - 1));
    }
  }

  /** One digit of the loop: its worth, what is left, and the 64-bit sums on the way. */
  lemma LoopDigit(amount: nat, n: nat, k: nat, order: nat)
    requires amount < TWO64 && k <= n && Front(amount, n) != 0 && order == Pow10(n)
    ensures var chunk := Front(amount, n) % 10 * order;
      && Low(amount, k) + chunk <= amount
      && Low(amount, n) + chunk == Low(amount, n + 1)
      && (chunk == 0 <==> Front(amount, n) % 10 == 0)
      && (chunk != 0 ==> order <= chunk)
      && chunk < Pow10(n + 1) == 10 * order
    ensures Front(amount, n) / 10 == Front(amount, n + 1)
    ensures Front(amount, n + 1) != 0 ==> order * 10 % TWO64 == Pow10(n + 1)
  {
    hide Low, Front, Pow10;
    NextPower(n);
    DigitStep(amount, n);
    LowParts(amount, k, n);
    Parts(amount, n + 1);
    DigitBounds(Front(amount, n) % 10, order);
  }

  lemma ChunksStep(rest: nat, order: nat, next: nat, chunks: seq<nat>)
    requires rest > 0 && order > 0 && next == 10 * order
    ensures rest % 10 == 0 ==> chunks + Chunks(rest, order) == chunks + Chunks(rest / 10, next)
    ensures rest % 10 != 0 ==> chunks + Chunks(rest, order) == chunks + [rest % 10 * order] + Chunks(rest / 10, next)
  {
    if rest % 10 == 0 {
      assert Chunks(rest, order) == [] + Chunks(rest / 10, next);
    } else {
      assert chunks + ([rest % 10 * order] + Chunks(rest / 10, next)) == chunks + [rest % 10 * order]
        + Chunks(rest / 10, next);
    }
  }

  lemma NextEvent(dust: nat, chunks: seq<nat>, chunk: nat)
    ensures WithDust(dust, chunks) + [Chunk(chunk)] == WithDust(dust, chunks + [chunk])
    ensures WithDust(dust, []) == if dust == 0 then [] else [Dust(dust)]
  {
  }

  lemma NoneLeft(order: nat, chunks: seq<nat>)
    requires order > 0
    ensures chunks + Chunks(0, order) == chunks && [] + Chunks(0, order) == []
  {
  }

  lemma NextPower(n: nat)
    ensures Pow10(n + 1) == 10 * Pow10(n)
  {
  }

  /**
    The handler calls of decompose_amount_into_digits: at most one for dust, before all chunks, then the digits above
    the cut. order wraps in 64 bits on the last pass, when it is no longer read.
    */
  method DecomposeAmountIntoDigits(amount: nat, threshold: nat) returns (events: seq<Event>)
    requires amount < TWO64 && threshold < TWO64
    ensures exists k: nat :: Cuts(amount, threshold, k)
              && events == WithDust(Low(amount, k), Chunks(Front(amount, k), Pow10(k)))
    ensures Total(events) == amount
  {
    hide Pow10, Chunks, WithDust, Low, Front, Total;
    events := [];
    ghost var k: nat := 0;
    Conserved(amount, k);
    UnitPower(amount);
    NextEvent(0, [], 0);
    NoneLeft(1, []);
    if amount == 0 {
      assert Cuts(amount, threshold, k);
      return;
    }
    var isDustHandled := false;
    var rest, dust, order := amount, 0, 1;
    ghost var n: nat := 0;
    ghost var cut := false;
    ghost var chunks: seq<nat> := [];
    while rest != 0
      invariant rest == Front(amount, n) && (rest != 0 ==> order == Pow10(n))
      invariant k <= n && (!cut ==> k == n && chunks == [] && !isDustHandled)
      invariant cut ==> k < n && dust + Pow10(n) > threshold && (isDustHandled <==> dust != 0)
      invariant cut ==> chunks + Chunks(rest, Pow10(n)) == Chunks(Front(amount, k), Pow10(k))
      invariant cut ==> Low(amount, k + 1) > threshold
      invariant dust == Low(amount, k) <= threshold
      invariant events == if cut then WithDust(dust, chunks) else []
    {
      LoopDigit(amount, n, k, order);
      var chunk := rest % 10 * order;
      NextPower(n);
      ChunksStep(rest, Pow10(n), Pow10(n + 1), chunks);
      NextEvent(dust, chunks, chunk);
      rest := rest / 10;
      order := order * 10 % TWO64;
      assert dust + chunk < TWO64;
      if dust + chunk <= threshold {
        dust := dust + chunk;
        k := if cut then k else n + 1;
      } else {
        if !isDustHandled && 0 != dust {
          events := events + [Dust(dust)];
          isDustHandled := true;
        }
        if 0 != chunk {
          events := events + [Chunk(chunk)];
          chunks := chunks + [chunk];
        }
        cut := true;
      }
      n := n + 1;
    }
    Parts(amount, n);
    NoneLeft(Pow10(n), chunks);
    NextEvent(dust, chunks, 0);
    if !isDustHandled && 0 != dust {
      events := events + [Dust(dust)];
    }
    assert Cuts(amount, threshold, k);
    Conserved(amount, k);
  }

  lemma UnitPower(amount: nat)
    ensures Pow10(0) == 1 && Low(amount, 0) == 0 && Front(amount, 0) == amount
  {
  }

  function Total(events: seq<Event>): nat {
    if |events| == 0 then 0 else events[0].value + Total(events[1..])
  }

  lemma {:induction false} TotalOfChunks(s: seq<nat>)
    ensures Total(AsChunks(s)) == Sum(s)
    decreases |s|
  {
    if |s| > 0 {
      TotalOfChunks(s[1..]);
      assert AsChunks(s)[1..] == AsChunks(s[1..]);
    }
  }

  lemma TotalWithDust(dust: nat, chunks: seq<nat>)
    ensures Total(WithDust(dust, chunks)) == dust + Sum(chunks)
  {
    TotalOfChunks(chunks);
    if dust == 0 {
      assert WithDust(dust, chunks) == AsChunks(chunks);
    } else {
      assert WithDust(dust, chunks)[1..] == AsChunks(chunks);
    }
  }

  /** Nothing is lost: dust and chunks add up to the amount, and the chunks increase. */
  lemma Conserved(amount: nat, k: nat)
    ensures Total(WithDust(Low(amount, k), Chunks(Front(amount, k), Pow10(k)))) == amount
    ensures forall i, j :: 0 <= i < j < |Chunks(Front(amount, k), Pow10(k))| ==>
      Low(amount, k) < Chunks(Front(amount, k), Pow10(k))[i] < Chunks(Front(amount, k), Pow10(k))[j]
  {
    hide Pow10, Low, Front, Chunks, Total, Sum, WithDust;
    Parts(amount, k);
    ChunksSum(Front(amount, k), Pow10(k));
    ChunksIncrease(Front(amount, k), Pow10(k));
    TotalWithDust(Low(amount, k), Chunks(Front(amount, k), Pow10(k)));
  }

  /** The dust is the largest part of low digits within the threshold. */
  lemma LargestDust(amount: nat, threshold: nat, k: nat, n: nat)
    requires Cuts(amount, threshold, k)
    ensures Low(amount, k) <= threshold
    ensures Low(amount, n) <= threshold ==> Low(amount, n) <= Low(amount, k)
  {
    hide Low, Front, Pow10;
    if n <= k {
      LowParts(amount, n, k);
    } else {
      LowParts(amount, k + 1, n);
      Parts(amount, k);
      Parts(amount, n);
      if amount < Pow10(k) {
        assert Pow10(k) * Front(amount, k) == 0;
      }
    }
  }
}
