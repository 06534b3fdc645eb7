/**
 * Block addressing in hpt_queuecommand (osm/linux/osm_linux.c): how the read, write and verify
 * command descriptor blocks become a sector range, and what READ CAPACITY promises about it.
 */
module BlockAddressing {
  import opened Collections
  import opened Words

  /** The opcodes of the read/write branch, by the width of their CDB. */
  datatype Width = Six | Ten | Sixteen

  /** A CDB as the mid-layer hands it over: always 16 bytes. */
  type Cdb = c: seq<Byte> | |c| == 16 witness seq(16, _ => 0)

  /** uCmd.Ide: sector address and 16-bit count. */
  datatype Request = Request(lba: Word64, sectors: Word16)

  function BigEndian(bytes: seq<Byte>): nat
  {
    if bytes == [] then 0 else BigEndian(bytes[..|bytes| - 1]) * 0x100 + bytes[|bytes| - 1]
  }

  /** The length of a CDB follows from the group code, the upper three bits of its opcode (SPC). */
  function GroupWidth(opcode: Byte): Option<Width>
  {
    if opcode / 0x20 == 0 then Some(Six)
    else if opcode / 0x20 == 1 then Some(Ten)
    else if opcode / 0x20 == 4 then Some(Sixteen)
    else None
  }

  /** READ_6 0x08, WRITE_6 0x0a, 0x13; 0x88, 0x8a, 0x8f; READ_10 0x28, WRITE_10 0x2a, VERIFY 0x2f */
  function WidthOf(opcode: Byte): (w: Option<Width>)
    ensures w.Some? ==> w == GroupWidth(opcode)
    ensures GroupWidth(opcode).Some? && opcode % 0x20 in {0x08, 0x0a} ==> w.Some?
  {
    if opcode in {0x08, 0x0a, 0x13} then Some(Six)
    else if opcode in {0x88, 0x8a, 0x8f} then Some(Sixteen)
    else if opcode in {0x28, 0x2a, 0x2f} then Some(Ten)
    else None
  }

  /** A byte of the CDB, shifted to its place. */
  function Shl(b: Byte, places: nat): (n: nat)
    requires places in {0, 8, 16, 24, 32, 40, 48, 56}
  {
    var i: int := b;
    match places
    case 0 => i
    case 8 => i * 0x100
    case 16 => i * 0x1_0000
    case 24 => i * 0x100_0000
    case 32 => i * 0x1_0000_0000
    case 40 => i * 0x100_0000_0000
    case 48 => i * 0x1_0000_0000_0000
    case _ => i * 0x100_0000_0000_0000
  }

  /** The decoding in the source. Its shifted bytes never overlap, so `|` is `+`. */
  function Decode(w: Width, c: Cdb): Request
  {
    match w
    case Six =>
      Request(Shl(c[1], 16) + Shl(c[2], 8) + Shl(c[3], 0), c[4])
    case Sixteen =>
      Request(Shl(c[2], 56) + Shl(c[3], 48) + Shl(c[4], 40) + Shl(c[5], 32)
              + Shl(c[6], 24) + Shl(c[7], 16) + Shl(c[8], 8) + Shl(c[9], 0),
              Shl(c[13], 0) + Shl(c[12], 8))
    case Ten =>
      Request(Shl(c[5], 0) + Shl(c[4], 8) + Shl(c[3], 16) + Shl(c[2], 24), Shl(c[8], 0) + Shl(c[7], 8))
  }

  /** What the SCSI block commands standard (SBC-2, sections 5.5 to 5.8) says the CDB asks for. */
  datatype Meaning = Meaning(lba: nat, blocks: nat)

  function Asks(w: Width, c: Cdb): Meaning
  {
    match w
    case Six => Meaning(BigEndian([c[1] % 0x20] + c[2..4]), if c[4] == 0 then 256 else c[4])
    case Ten => Meaning(BigEndian(c[2..6]), BigEndian(c[7..9]))
    case Sixteen => Meaning(BigEndian(c[2..10]), BigEndian(c[10..14]))
  }

  /** Bits the driver does not look at as the standard does are clear. */
  predicate PlainCdb(w: Width, c: Cdb)
  {
    match w
    case Six => c[1] < 0x20 && c[4] != 0
    case Ten => true
    case Sixteen => c[10] == 0 && c[11] == 0
  }

  lemma BigEndianSnoc(bytes: seq<Byte>, b: Byte)
    ensures BigEndian(bytes + [b]) == BigEndian(bytes) * 0x100 + b
  {
    assert (bytes + [b])[..|bytes|] == bytes;
  }

  lemma BigEndian2(a: Byte, b: Byte)
    ensures BigEndian([a, b]) == a * 0x100 + b
  {
    BigEndianSnoc([], a);
    BigEndianSnoc([a], b);
    assert [] + [a] == [a] && [a] + [b] == [a, b];
  }

  lemma BigEndian4(a: Byte, b: Byte, c: Byte, d: Byte)
    ensures BigEndian([a, b, c]) == (a * 0x100 + b) * 0x100 + c
    ensures BigEndian([a, b, c, d]) == ((a * 0x100 + b) * 0x100 + c) * 0x100 + d
  {
    BigEndian2(a, b);
    BigEndianSnoc([a, b], c);
    BigEndianSnoc([a, b, c], d);
    assert [a, b] + [c] == [a, b, c] && [a, b, c] + [d] == [a, b, c, d];
  }

  lemma BigEndian8(s: seq<Byte>)
    requires |s| == 8
    ensures BigEndian(s) == (((BigEndian(s[..4]) * 0x100 + s[4]) * 0x100 + s[5]) * 0x100 + s[6]) * 0x100 + s[7]
  {
    BigEndianSnoc(s[..4], s[4]);
    BigEndianSnoc(s[..5], s[5]);
    BigEndianSnoc(s[..6], s[6]);
    BigEndianSnoc(s[..7], s[7]);
    assert s[..4] + [s[4]] == s[..5] && s[..5] + [s[5]] == s[..6] && s[..6] + [s[6]] == s[..7] && s[..7] + [s[7]] == s;
  }

  lemma DecodeSix(c: Cdb)
    ensures Decode(Six, c).lba == Asks(Six, c).lba <==> c[1] < 0x20
    ensures Decode(Six, c).sectors == Asks(Six, c).blocks <==> c[4] != 0
  {
    BigEndian4(c[1] % 0x20, c[2], c[3], 0);
    assert [c[1] % 0x20] + c[2..4] == [c[1] % 0x20, c[2], c[3]];
    hide BigEndian;
  }

  lemma DecodeTen(c: Cdb)
    ensures Decode(Ten, c).lba == Asks(Ten, c).lba && Decode(Ten, c).sectors == Asks(Ten, c).blocks
  {
    BigEndian4(c[2], c[3], c[4], c[5]);
    BigEndian2(c[7], c[8]);
    assert c[2..6] == [c[2], c[3], c[4], c[5]] && c[7..9] == [c[7], c[8]];
    hide BigEndian;
  }

  lemma DecodeSixteen(c: Cdb)
    ensures Decode(Sixteen, c).lba == Asks(Sixteen, c).lba
    ensures Decode(Sixteen, c).sectors == Asks(Sixteen, c).blocks <==> c[10] == 0 && c[11] == 0
  {
    BigEndian8(c[2..10]);
    BigEndian4(c[2], c[3], c[4], c[5]);
    BigEndian4(c[10], c[11], c[12], c[13]);
    assert c[2..10][..4] == [c[2], c[3], c[4], c[5]] && c[10..14] == [c[10], c[11], c[12], c[13]];
    hide BigEndian;
  }

  /** The driver reads a CDB as the standard means it if and only if the neglected bits are clear. */
  lemma DecodeExactIff(w: Width, c: Cdb)
    ensures Decode(w, c).lba == Asks(w, c).lba && Decode(w, c).sectors == Asks(w, c).blocks <==> PlainCdb(w, c)
  {
    hide Asks, Decode;
    match w
    case Six => DecodeSix(c);
    case Ten => DecodeTen(c);
    case Sixteen => DecodeSixteen(c);
  }

  // ----- encoding, as an initiator does it

  function ToBytes(n: nat, k: nat): (s: seq<Byte>)
    ensures |s| == k
  {
    if k == 0 then [] else ToBytes(n / 0x100, k - 1) + [n % 0x100]
  }

  lemma {:induction false} BytesRoundTrip(n: nat, k: nat)
    ensures BigEndian(ToBytes(n, k)) == n % Pow2(8 * k)
  {
    if k > 0 {
      assert Pow2(8) == 0x100;
      BytesRoundTrip(n / 0x100, k - 1);
      BigEndianSnoc(ToBytes(n / 0x100, k - 1), n % 0x100);
      hide Pow2, BigEndian;
      Pow2Add(8, 8 * k - 8);
      SplitMod(n, Pow2(8 * k - 8));
    }
  }

  lemma SplitMod(n: nat, m: nat)
    requires m > 0
    ensures n / 0x100 % m * 0x100 + n % 0x100 == n % (0x100 * m)
  {
    var q := n / 0x100 / m;
    assert n / 0x100 == q * m + n / 0x100 % m;
    assert n == q * (0x100 * m) + (n / 0x100 % m * 0x100 + n % 0x100);
    assert n / 0x100 % m * 0x100 + n % 0x100 < 0x100 * m;
    DivModUnique(n, 0x100 * m, q, n / 0x100 % m * 0x100 + n % 0x100);
  }

  function Encode(w: Width, opcode: Byte, m: Meaning): Cdb
  {
    match w
    case Six => [opcode] + ToBytes(m.lba, 3) + [m.blocks % 0x100] + seq(11, _ => 0)
    case Ten => [opcode, 0] + ToBytes(m.lba, 4) + [0] + ToBytes(m.blocks, 2) + seq(7, _ => 0)
    case Sixteen => [opcode, 0] + ToBytes(m.lba, 8) + ToBytes(m.blocks, 4) + [0, 0]
  }

  /** What fits the address field of a CDB and the 16-bit count of the driver. */
  predicate Encodable(w: Width, m: Meaning)
  {
    match w
    case Six => m.lba < 0x20_0000 && 0 < m.blocks < 0x100
    case Ten => m.lba < TWO32 && m.blocks < TWO16
    case Sixteen => m.lba < TWO64 && m.blocks < TWO16
  }

  lemma Pow2Bytes()
    ensures Pow2(16) == TWO16 && Pow2(24) == 0x100_0000 && Pow2(32) == TWO32 && Pow2(64) == TWO64
  {
    Pow2Of16();
    Pow2Of32();
    assert Pow2(8) == 0x100;
    hide Pow2;
    Pow2Add(16, 8);
    Pow2Add(32, 32);
  }

  lemma BytesAre(n: nat, k: nat)
    requires k in {2, 3, 4, 8}
    requires n < (if k == 2 then TWO16 else if k == 3 then 0x100_0000 else if k == 4 then TWO32 else TWO64)
    ensures BigEndian(ToBytes(n, k)) == n
  {
    hide Pow2, ToBytes, BigEndian;
    Pow2Bytes();
    BytesRoundTrip(n, k);
  }

  lemma FirstByteSmall(n: nat)
    requires n < 0x20_0000
    ensures ToBytes(n, 3)[0] < 0x20
    ensures ToBytes(n, 3) == [ToBytes(n, 3)[0]] + ToBytes(n, 3)[1..]
  {
    var top := n / 0x100 / 0x100;
    assert ToBytes(top, 1) == ToBytes(top / 0x100, 0) + [top % 0x100] == [top % 0x100];
    assert ToBytes(n / 0x100, 2) == ToBytes(top, 1) + [n / 0x100 % 0x100];
    assert ToBytes(n, 3) == ToBytes(n / 0x100, 2) + [n % 0x100];
    assert top < 0x20;
  }

  lemma SmallCount(n: nat)
    requires n < TWO16
    ensures ToBytes(n, 4)[0] == 0 && ToBytes(n, 4)[1] == 0
  {
    assert ToBytes(n, 4) == ToBytes(n / 0x100 / 0x100, 2) + [n / 0x100 % 0x100, n % 0x100];
    assert n / 0x100 / 0x100 == 0;
    assert ToBytes(0, 2) == ToBytes(0, 1) + [0];
    assert ToBytes(0, 1) == ToBytes(0, 0) + [0];
  }

  /** Encoding and then decoding is the identity on every encodable request. */
  lemma DecodeEncode(w: Width, opcode: Byte, m: Meaning)
    requires Encodable(w, m)
    ensures Decode(w, Encode(w, opcode, m)) == Request(m.lba, m.blocks)
  {
    var c := Encode(w, opcode, m);
    DecodeExactIff(w, c);
    hide Decode, ToBytes, BigEndian;
    match w
    case Six =>
      FirstByteSmall(m.lba);
      BytesAre(m.lba, 3);
      assert [c[1] % 0x20] + c[2..4] == ToBytes(m.lba, 3);
    case Ten =>
      BytesAre(m.lba, 4);
      BytesAre(m.blocks, 2);
      assert c[2..6] == ToBytes(m.lba, 4) && c[7..9] == ToBytes(m.blocks, 2);
    case Sixteen =>
      SmallCount(m.blocks);
      BytesAre(m.lba, 8);
      BytesAre(m.blocks, 4);
      assert c[2..10] == ToBytes(m.lba, 8) && c[10..14] == ToBytes(m.blocks, 4);
  }

  // ----- sectors of 512 bytes

  /** The shift by the array's sector_size_shift, in 64 and in 16 bits. */
  function Scale(r: Request, shift: nat): Request
  {
    Request(Low64(r.lba * Pow2(shift)), r.sectors * Pow2(shift) % TWO16)
  }

  /** The logical blocks of a device, as READ CAPACITY counts them. */
  function Blocks(capacity: Word64, shift: nat): int
  {
    capacity / Pow2(shift)
  }

  lemma BlocksBound(capacity: Word64, shift: nat, n: nat)
    ensures n <= Blocks(capacity, shift) <==> n * Pow2(shift) <= capacity
    ensures 0 <= Blocks(capacity, shift) <= capacity
  {
    var size, q := Pow2(shift), capacity / Pow2(shift);
    assert capacity == q * size + capacity % size;
    assert (q + 1) * size == q * size + size;
    MulCancelLess(0, q + 1, size);
    MulMono(1, size, q);
    if n <= q {
      MulMono(n, q, size);
    } else {
      MulMono(q + 1, n, size);
    }
  }

  /**
   * A request for existing blocks becomes, without wrap-around, the sectors of just these blocks,
   * inside the device, if and only if the shifted count fits 16 bits.
   */
  lemma ScaleExactIff(r: Request, shift: nat, capacity: Word64)
    requires r.lba + r.sectors <= Blocks(capacity, shift)
    ensures Scale(r, shift).lba == r.lba * Pow2(shift)
    ensures Scale(r, shift).sectors == r.sectors * Pow2(shift) <==> r.sectors * Pow2(shift) < TWO16
    ensures Scale(r, shift).lba + Scale(r, shift).sectors <= capacity
  {
    hide Blocks, Pow2, Low64;
    BlocksBound(capacity, shift, r.lba + r.sectors);
    Products(r.lba, r.sectors, Pow2(shift));
    SmallMod(r.lba * Pow2(shift), r.sectors * Pow2(shift));
  }

  lemma Products(x: nat, y: nat, k: nat)
    ensures (x + y) * k == x * k + y * k && x * k >= 0 && y * k >= 0
  {
    MulMono(0, x, k);
    MulMono(0, y, k);
  }

  lemma SmallMod(a: nat, n: nat)
    ensures a < TWO64 ==> Low64(a) == a
    ensures n % TWO16 <= n && (n % TWO16 == n <==> n < TWO16)
  {
  }

  /** Requests for different blocks never touch the same sector. */
  lemma DisjointBlocksDisjointSectors(a: Request, b: Request, shift: nat, capacity: Word64)
    requires a.lba + a.sectors <= b.lba && b.lba + b.sectors <= Blocks(capacity, shift)
    ensures Scale(a, shift).lba + Scale(a, shift).sectors <= Scale(b, shift).lba
  {
    hide Pow2, Low64;
    BlocksBound(capacity, shift, b.lba + b.sectors);
    BlocksBound(capacity, shift, a.lba + a.sectors);
    ScaleExactIff(a, shift, capacity);
    ScaleExactIff(b, shift, capacity);
    hide Blocks, Scale;
    MulMono(a.lba + a.sectors, b.lba, Pow2(shift));
    Products(a.lba, a.sectors, Pow2(shift));
    ScaleNeverGrows(a, shift);
  }

  lemma ScaleNeverGrows(r: Request, shift: nat)
    ensures Scale(r, shift).sectors <= r.sectors * Pow2(shift)
  {
    hide Pow2;
    Products(0, r.sectors, Pow2(shift));
    SmallMod(0, r.sectors * Pow2(shift));
  }

  /**
   * From the CDB to the disk: a plain CDB that asks for blocks of the device, few enough for the
   * 16-bit count, reaches exactly the sectors of these blocks, all inside the device.
   */
  lemma CdbReachesItsBlocks(w: Width, c: Cdb, shift: nat, capacity: Word64)
    requires PlainCdb(w, c)
    requires Asks(w, c).lba + Asks(w, c).blocks <= Blocks(capacity, shift)
    requires Asks(w, c).blocks * Pow2(shift) < TWO16
    ensures var r := Scale(Decode(w, c), shift);
            && r.lba == Asks(w, c).lba * Pow2(shift)
            && r.lba + r.sectors == (Asks(w, c).lba + Asks(w, c).blocks) * Pow2(shift) <= capacity
  {
    hide Decode, Asks, Pow2, Blocks, Scale;
    DecodeExactIff(w, c);
    ScaleExactIff(Decode(w, c), shift, capacity);
    Products(Decode(w, c).lba, Decode(w, c).sectors, Pow2(shift));
  }

  // ----- READ CAPACITY

  function Bytes4(n: Word32): (s: seq<Byte>)
    ensures |s| == 4
  {
    [n / 0x100_0000, n / 0x1_0000 % 0x100, n / 0x100 % 0x100, n % 0x100]
  }

  /** The address of the last block in 32 bits; an empty device wraps. */
  function LastBlock(blocks: int): Word32
  {
    if blocks > 0xffff_ffff then 0xffff_ffff else Low32(blocks - 1)
  }

  /** The eight reply bytes of READ CAPACITY(10). */
  function ReadCapacity10(capacity: Word64, shift: nat): seq<Byte>
  {
    BlocksBound(capacity, shift, 0);
    Bytes4(LastBlock(Blocks(capacity, shift))) + [0, 0, 2 * Pow2(shift) % 0x100, 0]
  }

  lemma Bytes4RoundTrip(n: Word32)
    ensures BigEndian(Bytes4(n)) == n
  {
    BigEndian4(n / 0x100_0000, n / 0x1_0000 % 0x100, n / 0x100 % 0x100, n % 0x100);
    assert n / 0x100 / 0x100 == n / 0x1_0000 && n / 0x1_0000 / 0x100 == n / 0x100_0000;
  }

  /**
   * The reply is the last block address, or 0xffffffff if and only if the device is too large for
   * it or has no block at all; the block length is 512 << shift exactly for shifts up to 6.
   */
  lemma ReadCapacity10Reply(capacity: Word64, shift: nat)
    ensures var reply, blocks := ReadCapacity10(capacity, shift), Blocks(capacity, shift);
            && |reply| == 8
            && (BigEndian(reply[..4]) == 0xffff_ffff <==> blocks >= TWO32 || blocks == 0)
            && (0 < blocks < TWO32 ==> BigEndian(reply[..4]) == blocks - 1)
            && (BigEndian(reply[4..]) == 512 * Pow2(shift) <==> shift <= 6)
  {
    hide Bytes4, BigEndian, Pow2, Blocks, ReadCapacity10, LastBlock;
    ReplyShape(capacity, shift);
    BlocksBound(capacity, shift, 0);
    Bytes4RoundTrip(LastBlock(Blocks(capacity, shift)));
    LastBlockWord(Blocks(capacity, shift));
    LengthField(shift);
  }

  lemma ReplyShape(capacity: Word64, shift: nat)
    ensures Blocks(capacity, shift) >= 0
    ensures |ReadCapacity10(capacity, shift)| == 8
    ensures ReadCapacity10(capacity, shift)[..4] == Bytes4(LastBlock(Blocks(capacity, shift)))
    ensures ReadCapacity10(capacity, shift)[4..] == [0, 0, 2 * Pow2(shift) % 0x100, 0]
  {
    hide Bytes4, Pow2, Blocks, LastBlock;
    BlocksBound(capacity, shift, 0);
  }

  lemma LengthField(shift: nat)
    ensures BigEndian([0, 0, 2 * Pow2(shift) % 0x100, 0]) == 512 * Pow2(shift) <==> shift <= 6
  {
    hide Pow2, BigEndian;
    ShiftFits(shift);
    LengthBytes(2 * Pow2(shift));
  }

  lemma LengthBytes(size: nat)
    ensures BigEndian([0, 0, size % 0x100, 0]) == 0x100 * size <==> size < 0x100
  {
    hide BigEndian;
    BigEndian4(0, 0, size % 0x100, 0);
  }

  lemma LastBlockWord(blocks: nat)
    ensures LastBlock(blocks) == 0xffff_ffff <==> blocks >= TWO32 || blocks == 0
    ensures 0 < blocks < TWO32 ==> LastBlock(blocks) == blocks - 1
  {
  }

  /** The twelve reply bytes of READ CAPACITY(16) that the driver fills. */
  function ReadCapacity16(capacity: Word64, shift: nat): seq<Byte>
  {
    ToBytes(Low64(capacity / Pow2(shift) - 1), 8) + [0, 0, 2 * Pow2(shift) % 0x100, 0]
  }

  /** The last block address whenever there is one; the block length as in the short reply. */
  lemma ReadCapacity16Reply(capacity: Word64, shift: nat)
    ensures var reply, blocks := ReadCapacity16(capacity, shift), Blocks(capacity, shift);
            && |reply| == 12
            && (BigEndian(reply[..8]) + 1 == blocks <==> blocks > 0)
            && (BigEndian(reply[8..]) == 512 * Pow2(shift) <==> shift <= 6)
  {
    hide Pow2, ToBytes, BigEndian, Blocks, Low64, ReadCapacity16;
    LongReplyShape(capacity, shift);
    LengthField(shift);
    LastAddress(Blocks(capacity, shift));
  }

  lemma LongReplyShape(capacity: Word64, shift: nat)
    ensures 0 <= Blocks(capacity, shift) < TWO64 && |ReadCapacity16(capacity, shift)| == 12
    ensures ReadCapacity16(capacity, shift)[..8] == ToBytes(Low64(Blocks(capacity, shift) - 1), 8)
    ensures ReadCapacity16(capacity, shift)[8..] == [0, 0, 2 * Pow2(shift) % 0x100, 0]
  {
    BlocksBound(capacity, shift, 0);
    hide Pow2, ToBytes, Low64;
  }

  lemma LastAddress(blocks: nat)
    requires blocks < TWO64
    ensures BigEndian(ToBytes(Low64(blocks - 1), 8)) + 1 == blocks <==> blocks > 0
  {
    hide ToBytes, BigEndian;
    BytesAre(Low64(blocks - 1), 8);
  }

  lemma ShiftFits(shift: nat)
    ensures 2 * Pow2(shift) < 0x100 <==> shift <= 6
  {
    assert Pow2(6) == 0x40;
    if shift <= 6 {
      Pow2Add(shift, 6 - shift);
      MulMono(1, Pow2(6 - shift), Pow2(shift));
    } else {
      Pow2Add(7, shift - 7);
      assert Pow2(7) == 0x80;
      MulMono(1, Pow2(shift - 7), Pow2(7));
    }
  }
}
