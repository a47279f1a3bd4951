/**
 * The Internet checksum of RFC 1071 (sections 1 and 4.1) as the spoofer
 * computes it: a 32-bit accumulator of 16-bit host-order words, the odd last
 * byte zero-extended, end-around-carry folding and a final complement
 * truncated to 16 bits.
 */
module InternetChecksum {
  import opened Bytes

  const WORD_MOD: nat := 0x1_0000
  const ACC_MOD: nat := 0x1_0000_0000
  /** Ones'-complement arithmetic on 16-bit words works modulo 2^16 - 1. */
  const ONES_MOD: nat := 0xFFFF

  /**
   * Sum of the 16-bit host-order words at even offsets of `s`, plus the last
   * byte zero-extended when `|s|` is odd; no wrap-around.
   */
  function WordSum(s: seq<byte>): nat
    decreases |s|
  {
    if |s| == 0 then 0
    else if |s| == 1 then s[0]
    else ReadU16(s[0], s[1]) + WordSum(s[2..])
  }

  /** Folding the carries back in, as long as anything sits above bit 15. */
  function Fold(x: nat): (r: nat)
    ensures r < WORD_MOD
    ensures r % ONES_MOD == x % ONES_MOD
    ensures r == 0 <==> x == 0
    decreases x
  {
    if x < WORD_MOD then x
    else
      FoldStep(x);
      Fold(x % WORD_MOD + x / WORD_MOD)
  }

  /**
   * One step `(sum & 0xFFFF) + (sum >> 16)` of the fold loop, taken while
   * `sum >> 16 != 0`: it strictly decreases the sum, keeps it positive and
   * keeps its value modulo 0xFFFF.
   */
  lemma FoldStep(x: nat)
    requires x >= WORD_MOD
    ensures 0 < x % WORD_MOD + x / WORD_MOD < x
    ensures (x % WORD_MOD + x / WORD_MOD) % ONES_MOD == x % ONES_MOD
  {
    var q, r := x / WORD_MOD, x % WORD_MOD;
    assert x == WORD_MOD * q + r;
    assert q >= 1;
    assert x == (r + q) + ONES_MOD * q;
    AddMultipleMod(r + q, q);
  }

  /** Adding a multiple of 0xFFFF does not change a value modulo 0xFFFF. */
  lemma {:induction false} AddMultipleMod(a: nat, q: nat)
    ensures (a + ONES_MOD * q) % ONES_MOD == a % ONES_MOD
    decreases q
  {
    if q > 0 {
      AddMultipleMod(a, q - 1);
      assert a + ONES_MOD * q == (a + ONES_MOD * (q - 1)) + ONES_MOD;
    }
  }

  /**
   * The value `checksum(buf, size)` returns for the bytes `s == buf[..size]`:
   * the complement of the folded 32-bit sum, as a 16-bit value. Added to the
   * (wrapped) sum it gives zero in ones'-complement arithmetic.
   */
  function ChecksumOf(s: seq<byte>): (r: u16)
    ensures (r + WordSum(s) % ACC_MOD) % ONES_MOD == 0
    ensures r == 0 <==> WordSum(s) % ACC_MOD != 0 && (WordSum(s) % ACC_MOD) % ONES_MOD == 0
  {
    NegatesFold(WordSum(s) % ACC_MOD);
    0xFFFF - Fold(WordSum(s) % ACC_MOD)
  }

  /**
   * `0xFFFF - Fold(x)` is the ones'-complement negative of `x`: their sum is
   * 0 modulo 0xFFFF, and it is 0 exactly for a non-zero multiple of 0xFFFF.
   */
  lemma NegatesFold(x: nat)
    ensures (0xFFFF - Fold(x) + x) % ONES_MOD == 0
    ensures 0xFFFF - Fold(x) == 0 <==> x != 0 && x % ONES_MOD == 0
  {
    var f := Fold(x);
    var qx, qf := x / ONES_MOD, f / ONES_MOD;
    assert x == ONES_MOD * qx + x % ONES_MOD;
    assert f == ONES_MOD * qf + x % ONES_MOD;
    assert qf <= 1;
    assert 0xFFFF - f + x == 0 + ONES_MOD * (1 - qf + qx);
    AddMultipleMod(0, 1 - qf + qx);
    if x != 0 && x % ONES_MOD == 0 {
      FoldOfMultiple(x);
    }
  }

  /** A positive multiple of 0xFFFF folds to 0xFFFF (ones'-complement "negative zero"). */
  lemma FoldOfMultiple(t: nat)
    requires t != 0 && t % ONES_MOD == 0
    ensures Fold(t) == 0xFFFF
  {
    var f := Fold(t);
    assert f == ONES_MOD * (f / ONES_MOD) + 0;
  }

  /** Splitting after an even number of bytes splits the word sum. */
  lemma {:induction false} WordSumAppend(a: seq<byte>, b: seq<byte>)
    requires |a| % 2 == 0
    ensures WordSum(a + b) == WordSum(a) + WordSum(b)
    decreases |a|
  {
    if |a| == 0 {
      assert a + b == b;
    } else {
      assert (a + b)[2..] == a[2..] + b;
      WordSumAppend(a[2..], b);
    }
  }

  /** Each word is at most 0xFFFF, so `n` bytes sum to at most ceil(n/2) * 0xFFFF. */
  lemma {:induction false} WordSumBound(s: seq<byte>)
    ensures WordSum(s) <= (|s| + 1) / 2 * ONES_MOD
    decreases |s|
  {
    if |s| >= 2 {
      WordSumBound(s[2..]);
    }
  }

  /** Up to 0x20000 bytes (a fortiori one 4096-byte datagram) the 32-bit accumulator never wraps. */
  lemma NoWrap(s: seq<byte>)
    requires |s| <= 0x2_0000
    ensures WordSum(s) + ONES_MOD < ACC_MOD
  {
    WordSumBound(s);
  }

  /** Adding to an accumulator that holds `x` wrapped to 32 bits gives the sum wrapped to 32 bits. */
  lemma AddWrapped(sum: nat, x: nat, w: nat, total: nat)
    requires sum == x % ACC_MOD && total == x + w
    ensures (sum + w) % ACC_MOD == total % ACC_MOD
  {
    ModAdd(x, w);
  }

  lemma ModAdd(x: nat, w: nat)
    ensures (x % ACC_MOD + w) % ACC_MOD == (x + w) % ACC_MOD
  {
    var q := x / ACC_MOD;
    assert x == ACC_MOD * q + x % ACC_MOD;
  }

  /**
   * `checksum(buf, size)`. `size` must be at least 1: with `size == 0` the
   * unsigned bound `size - 1` wraps and the loop reads past the buffer.
   */
  method Checksum(buf: array<byte>, size: nat) returns (r: u16)
    requires 0 < size <= buf.Length
    ensures r == ChecksumOf(buf[..size])
  {
    var sum := Accumulate(buf, size);
    sum := FoldCarries(sum);
    // `~sum` on 32 bits, returned as an unsigned short.
    Finish(buf[..size], sum);
    r := (0xFFFF_FFFF - sum) % WORD_MOD;
  }

  /** The accumulation loop and the odd last byte: the word sum of the first `size` bytes, wrapped to 32 bits. */
  method Accumulate(buf: array<byte>, size: nat) returns (sum: u32)
    requires 0 < size <= buf.Length
    ensures sum == WordSum(buf[..size]) % ACC_MOD
  {
    var i;
    sum, i := AccumulateWords(buf, size);
    // Odd size: the last byte, zero-extended.
    if size % 2 == 1 {
      sum := AccumulateLast(buf, size, i, sum);
    } else {
      assert buf[..i] == buf[..size];
    }
  }

  /** `for (i = 0; i < size - 1; i += 2) sum += word16`: the wrapped word sum of the bytes before `i`. */
  method AccumulateWords(buf: array<byte>, size: nat) returns (sum: u32, i: nat)
    requires 0 < size <= buf.Length
    ensures i % 2 == 0 && (i == size || i + 1 == size)
    ensures sum == WordSum(buf[..i]) % ACC_MOD
  {
    ghost var total: nat, words: nat := 0, 0;
    sum, i := 0, 0;
    while i < size - 1
      invariant i == 2 * words && i <= size
      invariant total == WordSum(buf[..i]) && sum == total % ACC_MOD
    {
      var word := ReadU16(buf[i], buf[i + 1]);
      PrefixStep(buf[..], i);
      assert buf[..i + 2] == buf[..][..i + 2] && buf[..i] == buf[..][..i];
      AddWrapped(sum, total, word, total + word);
      sum := (sum + word) % ACC_MOD;
      total := total + word;
      i, words := i + 2, words + 1;
    }
  }

  /** The odd last byte, zero-extended and added with the 32-bit wrap. */
  method AccumulateLast(buf: array<byte>, size: nat, i: nat, sum: u32) returns (sum': u32)
    requires size <= buf.Length && i % 2 == 0 && i + 1 == size
    requires sum == WordSum(buf[..i]) % ACC_MOD
    ensures sum' == WordSum(buf[..size]) % ACC_MOD
  {
    PrefixLast(buf[..size], i);
    assert buf[..size][..i] == buf[..i];
    AddWrapped(sum, WordSum(buf[..i]), buf[i], WordSum(buf[..size]));
    sum' := (sum + buf[i]) % ACC_MOD;
  }

  /** `while (sum >> 16) sum = (sum & 0xFFFF) + (sum >> 16)`: the result is `Fold(sum)`. */
  method FoldCarries(sum: u32) returns (folded: u32)
    ensures folded == Fold(sum)
  {
    folded := sum;
    while folded >= WORD_MOD
      invariant Fold(folded) == Fold(sum)
      decreases folded
    {
      FoldStep(folded);
      folded := folded % WORD_MOD + folded / WORD_MOD;
    }
  }

  /** Once the accumulator is folded into 16 bits, its truncated complement is the checksum. */
  lemma Finish(s: seq<byte>, folded: nat)
    requires folded == Fold(WordSum(s) % ACC_MOD)
    ensures (0xFFFF_FFFF - folded) % WORD_MOD == ChecksumOf(s)
  {
    Complement(folded);
  }

  /** One more word at an even offset. */
  lemma PrefixStep(s: seq<byte>, i: nat)
    requires i % 2 == 0 && i + 2 <= |s|
    ensures WordSum(s[..i + 2]) == WordSum(s[..i]) + ReadU16(s[i], s[i + 1])
  {
    assert s[..i + 2] == s[..i] + [s[i], s[i + 1]];
    WordSumAppend(s[..i], [s[i], s[i + 1]]);
  }

  /** The last byte of an odd-sized buffer. */
  lemma PrefixLast(s: seq<byte>, i: nat)
    requires i % 2 == 0 && i + 1 == |s|
    ensures WordSum(s) == WordSum(s[..i]) + s[i]
  {
    assert s == s[..i] + [s[i]];
    WordSumAppend(s[..i], [s[i]]);
  }

  /** `~x` truncated to 16 bits is `0xFFFF - x` once `x` fits in 16 bits. */
  lemma Complement(x: nat)
    requires x < WORD_MOD
    ensures (0xFFFF_FFFF - x) % WORD_MOD == 0xFFFF - x
  {
    assert 0xFFFF_FFFF - x == WORD_MOD * 0xFFFF + (0xFFFF - x);
  }

  /**
   * RFC 1071 section 1: when the checksum is written into a zeroed, word
   * aligned 16-bit field, checksumming the result gives zero (the folded sum
   * of all words is 0xFFFF). This is how a receiver verifies the field.
   */
  lemma ChecksumFieldVerifies(p: seq<byte>, q: seq<byte>)
    requires |p| % 2 == 0
    requires |p| + 2 + |q| <= 0x2_0000
    ensures ChecksumOf(p + HostU16(ChecksumOf(p + HostU16(0) + q)) + q) == 0
  {
    var c := ChecksumOf(p + HostU16(0) + q);
    var total := WordSum(p + HostU16(0) + q);
    WordSumWithField(p, 0, q);
    WordSumWithField(p, c, q);
    NoWrap(p + HostU16(0) + q);
    SumPlusChecksum(total);
  }

  /** The word sum of `p ++ v ++ q` with `v` a word at an even offset. */
  lemma WordSumWithField(p: seq<byte>, v: u16, q: seq<byte>)
    requires |p| % 2 == 0
    ensures WordSum(p + HostU16(v) + q) == WordSum(p) + v + WordSum(q)
  {
    assert p + HostU16(v) + q == p + (HostU16(v) + q);
    WordSumAppend(p, HostU16(v) + q);
    WordSumAppend(HostU16(v), q);
    assert HostU16(v)[2..] == [];
  }

  /** A sum that does not wrap, plus its own checksum, folds to 0xFFFF. */
  lemma SumPlusChecksum(total: nat)
    requires total + ONES_MOD < ACC_MOD
    ensures Fold((total + (0xFFFF - Fold(total % ACC_MOD))) % ACC_MOD) == 0xFFFF
  {
    BelowModulus(total);
    var f := Fold(total);
    var t := total + (0xFFFF - f);
    BelowModulus(t);
    NegatesFold(total);
    assert t != 0 by {
      if total == 0 {
        assert f == 0;
      }
    }
    FoldOfMultiple(t);
  }

  /** A value below 2^32 is its own 32-bit truncation. */
  lemma BelowModulus(x: int)
    requires 0 <= x < ACC_MOD
    ensures x % ACC_MOD == x
  {
  }
}
