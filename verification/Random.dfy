/** Sampling from a range without bias (misc/random.c): raw values below a threshold are thrown away,
    and the others are reduced modulo the size of the range. */
module Random {
  import opened Arith

  /** The number of raw values, for the 32-bit and the 64-bit sampler. */
  const WORD32 := 0x1_0000_0000
  const WORD64 := 0x1_0000_0000_0000_0000

  /** The range negated in arithmetic modulo the word, reduced modulo the range. */
  function Threshold(word: nat, range: nat): nat
    requires 0 < range < word
  {
    (word - range) % range
  }

  function Residue(v: int, range: int): int
    requires range > 0
  {
    v % range
  }

  /** The values of an interval with a given residue. */
  ghost function Window(lo: int, hi: int, range: nat, residue: int): set<int>
    requires range > 0
  {
    set v: int | lo <= v < hi && Residue(v, range) == residue
  }

  /** As many consecutive values as the range has size hold each residue once. */
  lemma OneInBlock(lo: int, range: nat, residue: int, v: int)
    requires 0 <= residue < range && lo <= v < lo + range
    ensures Residue(v, range) == residue <==> v == lo + (residue - lo) % range
  {
    var x := lo + (residue - lo) % range;
    Divides(residue - lo, range);
    Divides(v, range);
    DivUnique(x, range, -((residue - lo) / range), residue);
    if v % range == residue {
      Distribute(v / range, x / range, range);
      SmallMultiple(v / range - x / range, range, v - x);
    }
  }

  /** So n blocks hold each residue n times. */
  lemma {:induction false} WindowSize(lo: int, n: nat, range: nat, residue: int)
    requires 0 <= residue < range
    ensures |Window(lo, lo + n * range, range, residue)| == n
    decreases n
  {
    if n == 0 {
      assert Window(lo, lo + n * range, range, residue) == {};
    } else {
      WindowSize(lo, n - 1, range, residue);
      Distribute(n - 1, 1, range);
      var mid := lo + (n - 1) * range;
      var x := mid + (residue - mid) % range;
      Divides(residue - mid, range);
      assert lo <= mid by {
        TimesLess(0, n - 1, range);
      }
      forall v | mid <= v < mid + range
        ensures Residue(v, range) == residue <==> v == x
      {
        OneInBlock(mid, range, residue, v);
      }
      assert x !in Window(lo, mid, range, residue);
      assert Window(lo, lo + n * range, range, residue) == Window(lo, mid, range, residue) + {x};
    }
  }

  /** The threshold leaves a whole number of blocks. */
  lemma ThresholdIs(word: nat, range: nat)
    requires 0 < range < word
    ensures Threshold(word, range) == word % range && word == Threshold(word, range) + word / range * range
  {
    Divides(word, range);
    Distribute(word / range, 1, range);
    DivUnique(word - range, range, word / range - 1, word % range);
  }

  /** Every number of the range is the image of equally many accepted raw values, so a uniform
      source gives a uniform sample. */
  lemma EqualShares(word: nat, range: nat, residue: int)
    requires 0 < range < word && 0 <= residue < range
    ensures |Window(Threshold(word, range), word, range, residue)| == word / range > 0
  {
    ThresholdIs(word, range);
    WindowSize(Threshold(word, range), word / range, range, residue);
    if word / range <= 0 {
      TimesLess(word / range, 0, range);
    }
  }

  /** random_uint32_range and random_uint64_range on a source of raw values that gives an accepted
      one sooner or later: the first accepted one decides. */
  method Range(word: nat, min: nat, max: nat, source: nat -> nat, ghost sooner: nat) returns (r: nat, draws: nat)
    requires (word == WORD32 || word == WORD64) && max < word && forall k :: source(k) < word
    requires min < max ==> source(sooner) >= Threshold(word, max - min)
    ensures min >= max ==> r == min && draws == 0
    ensures min < max ==>
              && min <= r < max && draws > 0 && source(draws - 1) >= Threshold(word, max - min)
              && source(draws - 1) in Window(Threshold(word, max - min), word, max - min, r - min)
              && forall k :: 0 <= k < draws - 1 ==> source(k) < Threshold(word, max - min)
  {
    if min >= max {
      return min, 0;
    }
    var range := max - min;
    var threshold := Threshold(word, range);
    var value := source(0);
    draws := 1;
    while value < threshold
      invariant 0 < draws <= sooner + 1 && value == source(draws - 1)
      invariant forall k :: 0 <= k < draws - 1 ==> source(k) < threshold
      decreases sooner + 1 - draws
    {
      value := source(draws);
      draws := draws + 1;
    }
    r := min + Residue(value, range);
  }
}
