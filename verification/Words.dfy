/** 32-bit unsigned big-endian words, as `DataView.setUint32`/`getUint32` and `randomIndex` use them. */
module Words {
  import opened Bytes

  const TWO32: nat := 0x1_0000_0000

  /** One more byte at the low end. */
  function Append(high: nat, b: byte): (n: nat)
    ensures 256 * high <= n < 256 * (high + 1)
  {
    256 * high + IntOf(b)
  }

  /** Four bytes as a number; the shifted bytes occupy disjoint bits, so their bitwise or is their sum. */
  function Word(b: bytes): (n: nat)
    requires |b| == 4
    ensures n < TWO32
  {
    hide Append, IntOf;
    Append(Append(Append(IntOf(b[0]), b[1]), b[2]), b[3])
  }

  function WordBytes(n: nat): (b: bytes)
    requires n < TWO32
    ensures |b| == 4
  {
    [ByteOf(n / 256 / 256 / 256), ByteOf(n / 256 / 256 % 256), ByteOf(n / 256 % 256), ByteOf(n % 256)]
  }

  /** Four bytes and the numbers below 2^32 correspond one to one. */
  lemma WordOneToOne(n: nat, b: bytes)
    requires n < TWO32 && |b| == 4
    ensures Word(WordBytes(n)) == n
    ensures WordBytes(Word(b)) == b
  {
    hide IntOf, ByteOf;
    var h := 256 * IntOf(b[0]) + IntOf(b[1]);
    var k := 256 * h + IntOf(b[2]);
    assert Word(b) / 256 == k && Word(b) % 256 == IntOf(b[3]);
    assert k / 256 == h && k % 256 == IntOf(b[2]);
    assert h / 256 == IntOf(b[0]) && h % 256 == IntOf(b[1]);
    ByteOfInt(b[0]); ByteOfInt(b[1]); ByteOfInt(b[2]); ByteOfInt(b[3]);
  }

  /** The most significant byte comes first. */
  lemma HighByteFirst(n: nat)
    requires n < TWO32
    ensures var b := WordBytes(n);
            0x100_0000 * IntOf(b[0]) + 0x1_0000 * IntOf(b[1]) + 0x100 * IntOf(b[2]) + IntOf(b[3]) == n
  {
    hide IntOf;
  }
}
