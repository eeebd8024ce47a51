/** Flash words, logical addresses and the key word `CRC << 16 | address` stored beside every
    data word. */
module Words {
  import Crc

  type Word = x: int | 0 <= x < 0x1_0000_0000
  type Addr = x: int | 0 <= x < 0x1_0000
  type Byte = x: int | 0 <= x < 0x100

  const ERASED: Word := 0xffff_ffff    // WRITABLE_32BIT
  const INFO_SIZE: nat := 2            // header cells of a page
  const PAGE_CELLS: nat := 1024        // PAGE_element
  const PAGE_PAIRS: nat := 511         // PAGE_element_data
  const BUFFER_CELLS: nat := 14        // FTL_MAX_INDEX

  lemma Sizes()
    ensures INFO_SIZE == 2 && PAGE_CELLS == 1024 && PAGE_PAIRS == 511 && BUFFER_CELLS == 14
  {
  }

  datatype Option<+T> = None | Some(value: T)

  /** A user write, and a (data, key) pair of the log. */
  datatype Entry = Entry(addr: Addr, data: Word)

  /** ftl_check_logical_addr: 4-aligned and below MAX_logical_address_size. */
  predicate ValidAddr(pages: nat, a: Addr) {
    a % 4 == 0 && a < 4 * (PAGE_PAIRS * (pages - 1) - 1)
  }

  /** The CRC of the six payload bytes: the data word, then the address. */
  function Checksum(a: Addr, d: Word): (c: nat)
    ensures c < 0x1_0000
  {
    Crc.Pow2Values();
    Crc.FcsParity(0, a * 0x1_0000_0000 + d, 48);
    Crc.Fcs(0, a * 0x1_0000_0000 + d, 48)
  }

  /** ftl_crc_key_init */
  function KeyOf(a: Addr, d: Word): (key: Word)
    ensures KeyAddr(key) == a && CrcOk(key, d)
  {
    Checksum(a, d) * 0x1_0000 + a
  }

  function KeyAddr(key: Word): Addr {
    key % 0x1_0000
  }

  /** ftl_crc_key_check */
  predicate CrcOk(key: Word, d: Word) {
    key / 0x1_0000 == Checksum(KeyAddr(key), d)
  }

  /** The six payload bytes: the four of the data word, then the two of the address, low byte first. */
  function Payload(a: Addr, d: Word): seq<nat> {
    [d % 0x100, d / 0x100 % 0x100, d / 0x1_0000 % 0x100, d / 0x100_0000, a % 0x100, a / 0x100]
  }

  lemma WordBytes(d: Word)
    ensures Crc.Bytes(d, 4) == [d % 0x100, d / 0x100 % 0x100, d / 0x1_0000 % 0x100, d / 0x100_0000]
  {
    var d1 := d / 0x100;
    assert d1 / 0x100 == d / 0x1_0000 && d1 / 0x100 / 0x100 == d / 0x100_0000;
    assert Crc.Bytes(d, 4) == [d % 0x100] + Crc.Bytes(d1, 3);
    assert Crc.Bytes(d1, 3) == [d1 % 0x100] + Crc.Bytes(d1 / 0x100, 2);
  }

  lemma AddrBytes(a: Addr)
    ensures Crc.Bytes(a, 2) == [a % 0x100, a / 0x100]
  {
    assert Crc.Bytes(a, 2) == [a % 0x100] + Crc.Bytes(a / 0x100, 1);
  }

  lemma PayloadBits(a: Addr, d: Word)
    ensures Crc.BitsOf(Payload(a, d)) == Crc.Bits(a * 0x1_0000_0000 + d, 48)
  {
    hide Crc.Bytes, Crc.BitsOf, Crc.Bits, Crc.Pow2;
    Crc.Pow2Values();
    WordBytes(d);
    AddrBytes(a);
    assert Payload(a, d) == Crc.Bytes(d, 4) + Crc.Bytes(a, 2);
    Crc.BitsOfConcat(Crc.Bytes(d, 4), Crc.Bytes(a, 2));
    Crc.BytesBits(d, 4);
    Crc.BytesBits(a, 2);
    Crc.JoinedBits(a, 16, d, 32);
  }

  lemma ChecksumIs(a: Addr, d: Word)
    ensures Checksum(a, d) == Crc.Fcs(0, a * 0x1_0000_0000 + d, 48) && a * 0x1_0000_0000 + d < Crc.Pow2(48)
  {
    hide Crc.Pow2, Crc.Fcs;
    Crc.Pow2Values();
  }

  /** The checksum is the remainder that the payload leaves, and no other number is. */
  lemma ChecksumRemainder(a: Addr, d: Word, r: nat)
    ensures Crc.Remainder(Crc.BitsOf(Payload(a, d)), r) <==> r == Checksum(a, d)
  {
    hide *;
    ChecksumIs(a, d);
    PayloadBits(a, d);
    Crc.FcsRemainder(a * 0x1_0000_0000 + d, 48, r);
  }

  /** A key is the address in its low half and in its high half the remainder of data word and address
      by X^16 + X^15 + X^2 + 1; it passes the check exactly if its high half is that remainder. */
  lemma KeyIsRemainder(a: Addr, d: Word, key: Word)
    ensures KeyOf(a, d) % 0x1_0000 == a && Crc.Remainder(Crc.BitsOf(Payload(a, d)), KeyOf(a, d) / 0x1_0000)
    ensures CrcOk(key, d) <==> Crc.Remainder(Crc.BitsOf(Payload(key % 0x1_0000, d)), key / 0x1_0000)
  {
    hide Crc.Remainder, Crc.BitsOf, Checksum, Payload;
    ChecksumRemainder(a, d, KeyOf(a, d) / 0x1_0000);
    ChecksumRemainder(key % 0x1_0000, d, key / 0x1_0000);
  }

  /** The key of a valid address is never the erased pattern, whatever the data word. */
  lemma KeyNotErased(pages: nat, a: Addr, d: Word)
    requires ValidAddr(pages, a)
    ensures KeyOf(a, d) != ERASED
  {
    assert KeyAddr(KeyOf(a, d)) == a;
    assert ERASED % 0x1_0000 == 0xffff;
  }

  lemma ChecksumParity(a: Addr, d: Word)
    ensures Crc.Odd(Checksum(a, d)) == (Crc.Odd(a) != Crc.Odd(d))
  {
    Crc.Pow2Values();
    Crc.FcsParity(0, a * 0x1_0000_0000 + d, 48);
    Crc.OddJoin(a, d, 32);
  }

  lemma KeyParity(key: Word)
    ensures Crc.Odd(key) == (Crc.Odd(key / 0x1_0000) != Crc.Odd(KeyAddr(key)))
  {
    Crc.Pow2Values();
    Crc.OddJoin(key / 0x1_0000, KeyAddr(key), 16);
  }

  /** A stored pair that passes the check has an even number of one bits... */
  lemma ValidPairHasEvenWeight(key: Word, d: Word)
    requires CrcOk(key, d)
    ensures Crc.Odd(key) == Crc.Odd(d)
  {
    ChecksumParity(KeyAddr(key), d);
    KeyParity(key);
  }

  /** ... so a bit error of odd weight, spread over data, address and stored CRC in any way, is
      always rejected. */
  lemma OddErrorRejected(key: Word, d: Word, key': Word, d': Word)
    requires CrcOk(key, d)
    requires (Crc.Distance(key, key') + Crc.Distance(d, d')) % 2 == 1
    ensures !CrcOk(key', d')
  {
    DistanceSum(key, key', d, d');
    ValidPairHasEvenWeight(key, d);
    if CrcOk(key', d') {
      ValidPairHasEvenWeight(key', d');
    }
  }

  lemma DistanceSum(x: Word, x': Word, y: Word, y': Word)
    requires (Crc.Distance(x, x') + Crc.Distance(y, y')) % 2 == 1
    ensures (Crc.Odd(x) == Crc.Odd(x')) != (Crc.Odd(y) == Crc.Odd(y'))
  {
    hide Crc.Distance, Crc.Odd;
    OddSum(Crc.Distance(x, x'), Crc.Distance(y, y'));
    Crc.DistanceParity(x, x');
    Crc.DistanceParity(y, y');
  }

  lemma OddSum(m: nat, n: nat)
    requires (m + n) % 2 == 1
    ensures (m % 2 == 1) != (n % 2 == 1)
  {
  }
}
