/**
 * The Internet checksum of RFC 1071 as ICMP_Pinger.py computes it: the buffer
 * is read as little-endian 16-bit words (a trailing odd byte on its own, as a
 * low-order byte), summed in a 32-bit accumulator, folded twice, complemented,
 * masked to 16 bits and finally byte-swapped.
 */
module InternetChecksum {
  import opened Bytes

  const Modulus32 := 0x1_0000_0000

  /** Largest IPv4 datagram; on buffers up to this size the 32-bit accumulator cannot wrap. */
  const MaxBuffer := 0xffff

  /** The sum of the little-endian words of `s`, a trailing odd byte counted as a low-order byte. */
  function WordSum(s: seq<byte>): nat
  {
    if |s| == 0 then 0
    else if |s| == 1 then s[0]
    else s[0] + (s[1] as int) * 0x100 + WordSum(s[2..])
  }

  /** What end-around-carry folding reduces a nonnegative sum to. */
  function EndAroundCarry(n: nat): (r: uint16)
    ensures r == 0 <==> n == 0
    ensures r % 0xffff == n % 0xffff
  {
    if n == 0 then 0 else (n - 1) % 0xffff + 1
  }

  /** The value the source's `checksum` returns for `s`. */
  function ChecksumOf(s: seq<byte>): uint16
  {
    Swap16(0xffff - EndAroundCarry(WordSum(s) % Modulus32))
  }

  /** Reference definition: the one's-complement sum of RFC 1071 section 1. */
  function EndAroundAdd(a: uint16, b: uint16): uint16
  {
    if a + b > 0xffff then a + b - 0xffff else a + b
  }

  function OnesComplementSum(s: seq<byte>): uint16
  {
    if |s| == 0 then 0
    else if |s| == 1 then s[0]
    else EndAroundAdd(s[0] + (s[1] as int) * 0x100, OnesComplementSum(s[2..]))
  }

  /** Weight of the byte at position `i`: low-order on even positions, high-order on odd ones. */
  function PositionWeight(i: nat): nat
  {
    if i % 2 == 0 then 1 else 0x100
  }

  /** Reference definition: every byte of `s` once, weighted by its position counted from `offset`. */
  function ByteContributions(s: seq<byte>, offset: nat): nat
  {
    if |s| == 0 then 0 else s[0] * PositionWeight(offset) + ByteContributions(s[1..], offset + 1)
  }

  /** The source's `checksum` loop (ICMP_Pinger.py:33-53). */
  method Checksum(s: seq<byte>) returns (answer: uint16)
    ensures answer == ChecksumOf(s)
  {
    var csum := 0;
    var countTo := (|s| / 2) * 2;
    var count := 0;
    while count < countTo
      invariant 0 <= count <= countTo && count % 2 == 0
      invariant csum == WordSum(s[..count]) % Modulus32
    {
      var thisVal := (s[count + 1] as int) * 0x100 + s[count];
      csum := csum + thisVal;
      csum := csum % Modulus32;
      assert csum == WordSum(s[..count + 2]) % Modulus32 by {
        WordSumStep(s, count);
        AddMod(WordSum(s[..count]), thisVal);
      }
      count := count + 2;
    }
    if countTo < |s| {
      csum := csum + s[|s| - 1];
      csum := csum % Modulus32;
      assert csum == WordSum(s) % Modulus32 by {
        WordSumLast(s);
        AddMod(WordSum(s[..countTo]), s[|s| - 1]);
      }
    } else {
      assert s[..countTo] == s;
    }
    ghost var c0 := csum;
    csum := csum / 0x1_0000 + csum % 0x1_0000;
    ghost var c1 := csum;
    csum := csum + csum / 0x1_0000;
    // `~csum & 0xffff` on Python's unbounded two's-complement integers
    var a := (-csum - 1) % 0x1_0000;
    // `a >> 8 | (a << 8 & 0xff00)`: the two halves occupy disjoint bits
    var swapped := a / 0x100 + (a * 0x100) % 0x1_0000;
    Finish(c0, c1, csum, a, swapped);
    answer := swapped;
  }

  /** Lines 48-52 applied to the 32-bit accumulator `c0`, one intermediate value per line. */
  lemma Finish(c0: int, c1: int, c2: int, a: int, swapped: int)
    requires 0 <= c0 < Modulus32
    requires c1 == c0 / 0x1_0000 + c0 % 0x1_0000 && c2 == c1 + c1 / 0x1_0000
    requires a == (-c2 - 1) % 0x1_0000 && swapped == a / 0x100 + (a * 0x100) % 0x1_0000
    ensures swapped == Swap16(0xffff - EndAroundCarry(c0))
  {
    FoldTwice(c0);
    ShiftsSwap(a);
  }

  /** A trailing odd byte adds itself to the word sum of the bytes before it. */
  lemma WordSumLast(s: seq<byte>)
    requires |s| % 2 == 1
    ensures WordSum(s) == WordSum(s[..|s| - 1]) + s[|s| - 1]
  {
    assert s == s[..|s| - 1] + [s[|s| - 1]];
    WordSumAppend(s[..|s| - 1], [s[|s| - 1]]);
  }

  lemma ShiftsSwap(a: uint16)
    ensures a / 0x100 + (a * 0x100) % 0x1_0000 == Swap16(a)
  {
    var hi, lo := a / 0x100, a % 0x100;
    assert a * 0x100 == 0x1_0000 * hi + lo * 0x100;
  }

  lemma AddMod(x: nat, w: nat)
    ensures (x % Modulus32 + w) % Modulus32 == (x + w) % Modulus32
  {
  }

  lemma {:induction false} WordSumAppend(a: seq<byte>, b: seq<byte>)
    requires |a| % 2 == 0
    ensures WordSum(a + b) == WordSum(a) + WordSum(b)
  {
    if |a| == 0 {
      assert a + b == b;
    } else {
      assert (a + b)[2..] == a[2..] + b;
      WordSumAppend(a[2..], b);
    }
  }

  lemma WordSumStep(s: seq<byte>, count: nat)
    requires count % 2 == 0 && count + 2 <= |s|
    ensures WordSum(s[..count + 2]) == WordSum(s[..count]) + (s[count + 1] as int) * 0x100 + s[count]
  {
    assert s[..count + 2] == s[..count] + s[count..count + 2];
    WordSumAppend(s[..count], s[count..count + 2]);
    assert s[count..count + 2][2..] == [];
  }

  /** The two folds of lines 48-49 followed by `~ & 0xffff` give the complemented end-around-carry sum. */
  lemma FoldTwice(c0: nat)
    requires c0 < Modulus32
    ensures var c1 := c0 / 0x1_0000 + c0 % 0x1_0000;
            var c2 := c1 + c1 / 0x1_0000;
            (-c2 - 1) % 0x1_0000 == 0xffff - EndAroundCarry(c0)
  {
    var h, l := c0 / 0x1_0000, c0 % 0x1_0000;
    var c1 := h + l;
    var c2 := c1 + c1 / 0x1_0000;
    // what survives the mask `& 0xffff` of line 51
    var low := if c1 <= 0xffff then c1 else c1 - 0xffff;
    assert c2 % 0x1_0000 == low by {
      if c1 > 0xffff {
        assert c1 / 0x1_0000 == 1;
        assert c2 == 0x1_0000 + low;
      }
    }
    assert low % 0xffff == c0 % 0xffff by {
      assert c0 == 0xffff * h + c1;
      ModShift(c1, h);
      if c1 > 0xffff {
        ModShift(low, 1);
      }
    }
    CarryUnique(c0, low);
    ComplementLow(c2, low);
  }

  lemma ModShift(a: int, k: nat)
    ensures (0xffff * k + a) % 0xffff == a % 0xffff
  {
  }

  /** `~c & 0xffff` depends only on the low 16 bits of `c`. */
  lemma ComplementLow(c: int, low: int)
    requires 0 <= low < 0x1_0000 && c % 0x1_0000 == low
    ensures (-c - 1) % 0x1_0000 == 0xffff - low
  {
    assert -c - 1 == 0x1_0000 * (-(c / 0x1_0000) - 1) + (0xffff - low);
  }

  /** End-around-carry folding is pinned down by its range, its zero and its residue modulo 0xffff. */
  lemma CarryUnique(n: nat, r: int)
    requires 0 <= r <= 0xffff && (r == 0 <==> n == 0) && r % 0xffff == n % 0xffff
    ensures r == EndAroundCarry(n)
  {
    var e := EndAroundCarry(n);
    assert r % 0xffff == (if r == 0xffff then 0 else r);
    assert e % 0xffff == (if e == 0xffff then 0 else e);
  }

  /** Adding the same value preserves congruence modulo 0xffff. */
  lemma AddCongruent(w: nat, a: nat, b: nat)
    requires a % 0xffff == b % 0xffff
    ensures (w + a) % 0xffff == (w + b) % 0xffff
  {
    ModShift(w + a % 0xffff, a / 0xffff);
    ModShift(w + b % 0xffff, b / 0xffff);
  }

  /** End-around addition of a word to a folded sum is the fold of the plain sum. */
  lemma EndAroundAddFolds(w: uint16, n: nat)
    ensures EndAroundAdd(w, EndAroundCarry(n)) == EndAroundCarry(w + n)
  {
    var r := EndAroundCarry(n);
    var v := EndAroundAdd(w, r);
    assert v % 0xffff == (w + n) % 0xffff by {
      AddCongruent(w, r, n);
      if w + r > 0xffff {
        ModShift(v, 1);
      }
    }
    CarryUnique(w + n, v);
  }

  /** The plain word sum, folded, is the one's-complement sum of RFC 1071. */
  lemma {:induction false} OnesComplementSumIsFoldedWordSum(s: seq<byte>)
    ensures OnesComplementSum(s) == EndAroundCarry(WordSum(s))
  {
    if |s| >= 2 {
      OnesComplementSumIsFoldedWordSum(s[2..]);
      EndAroundAddFolds(s[0] + (s[1] as int) * 0x100, WordSum(s[2..]));
    }
  }

  /** Each word is at most 0xffff, and there are at most `|s|` of them. */
  lemma {:induction false} WordSumBound(s: seq<byte>)
    ensures WordSum(s) <= 0xffff * |s|
  {
    if |s| >= 2 {
      WordSumBound(s[2..]);
    }
  }

  /** On buffers of IPv4 size the `& 0xffffffff` of lines 41 and 46 never changes the sum. */
  lemma NoWrap(s: seq<byte>)
    requires |s| <= MaxBuffer
    ensures WordSum(s) < Modulus32 && WordSum(s) % Modulus32 == WordSum(s)
  {
    WordSumBound(s);
    assert 0xffff * |s| <= 0xffff * MaxBuffer;
  }

  /** Every byte is counted exactly once: low-order on even positions, high-order on odd ones. */
  lemma {:induction false} WordSumCountsEachByteOnce(s: seq<byte>, offset: nat)
    requires offset % 2 == 0
    ensures WordSum(s) == ByteContributions(s, offset)
  {
    if |s| == 1 {
      assert ByteContributions(s, offset) == s[0] + ByteContributions(s[1..], offset + 1);
    } else if |s| >= 2 {
      WordSumCountsEachByteOnce(s[2..], offset + 2);
      assert s[1..][1..] == s[2..];
    }
  }

  /**
   * On any buffer of IPv4 size the result is the byte-swapped complement of the
   * RFC 1071 one's-complement sum; swapping it back gives `~sum & 0xffff`.
   */
  lemma ChecksumIsComplementedOnesSum(s: seq<byte>)
    requires |s| <= MaxBuffer
    ensures ChecksumOf(s) == Swap16(0xffff - OnesComplementSum(s))
    ensures Swap16(ChecksumOf(s)) == 0xffff - OnesComplementSum(s)
  {
    NoWrap(s);
    var o := OnesComplementSum(s);
    OnesComplementSumIsFoldedWordSum(s);
    assert ChecksumOf(s) == Swap16(0xffff - o);
    Swap16Involution(0xffff - o);
  }

  /**
   * Exchanging two adjacent even-length blocks anywhere in the buffer does not change
   * the checksum: the words are summed in any order. The tail may have odd length.
   */
  lemma ChecksumCommutes(x: seq<byte>, a: seq<byte>, b: seq<byte>, y: seq<byte>)
    requires |x| % 2 == 0 && |a| % 2 == 0 && |b| % 2 == 0
    ensures ChecksumOf(x + a + b + y) == ChecksumOf(x + b + a + y)
  {
    WordSumCommutes(x, a, b, y);
  }

  lemma WordSumCommutes(x: seq<byte>, a: seq<byte>, b: seq<byte>, y: seq<byte>)
    requires |x| % 2 == 0 && |a| % 2 == 0 && |b| % 2 == 0
    ensures WordSum(x + a + b + y) == WordSum(x + b + a + y)
  {
    WordSumOfThree(x, a, b);
    WordSumOfThree(x, b, a);
    WordSumAppend(x + a + b, y);
    WordSumAppend(x + b + a, y);
  }

  lemma WordSumOfThree(x: seq<byte>, a: seq<byte>, b: seq<byte>)
    requires |x| % 2 == 0 && |a| % 2 == 0
    ensures WordSum(x + a + b) == WordSum(x) + WordSum(a) + WordSum(b)
  {
    WordSumAppend(x, a);
    WordSumAppend(x + a, b);
  }
}
