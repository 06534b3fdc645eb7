/**
 * ATA pass-through (osm/linux/osm_linux.c): the task file registers that hpt_queuecommand reads from
 * a 12 or 16 byte CDB, and the return descriptor that os_cmddone writes into the sense buffer.
 */
module AtaRegisters {
  import opened BlockAddressing
  import opened Collections
  import opened Words

  /** PassthroughCmd: registers of 16 bits hold the previous value in their upper half. */
  datatype Registers = Registers(features: Word16, count: Word16, low: Word16, mid: Word16, high: Word16,
                                 device: Byte, command: Byte)

  function Pair(upper: Byte, lower: Byte): Word16 { upper * 0x100 + lower }

  /** The fields of bytes 1 and 2: multiple count, protocol, direction of the data, where its length is. */
  function MultipleCount(c: Cdb): nat { c[1] / 0x20 }

  function Protocol(c: Cdb): nat { c[1] / 2 % 0x10 }

  predicate ToHost(c: Cdb) { c[2] / 8 % 2 == 1 }

  function TransferLength(c: Cdb): nat { c[2] % 4 }

  predicate Extended(c: Cdb) { c[0] == 0x85 && c[1] % 2 == 1 }

  function FromCdb(c: Cdb): Registers
  {
    if c[0] == 0x85 then
      if c[1] % 2 == 1 then
        Registers(Pair(c[3], c[4]), Pair(c[5], c[6]), Pair(c[7], c[8]), Pair(c[9], c[10]), Pair(c[11], c[12]),
                  c[13], c[14])
      else
        Registers(c[4], c[6], c[8], c[10], c[12], c[13], c[14])
    else
      Registers(c[3], c[4], c[5], c[6], c[7], c[8], c[9])
  }

  // ----- encoding, as an initiator does it

  /** ATA PASS-THROUGH(12), and (16) without and with the extend bit. */
  datatype Form = Short | Long | LongExtended

  function Upper(w: Word16): Byte { w / 0x100 }

  function Lower(w: Word16): Byte { w % 0x100 }

  /** What else the CDB says; other is the part of byte 2 that the driver does not look at. */
  datatype Flags = Flags(multiple: nat, protocol: nat, toHost: bool, length: nat, byteBlock: bool, other: nat)

  predicate FlagsFit(f: Flags)
  {
    f.multiple < 8 && f.protocol < 16 && f.length < 4 && f.other < 16
  }

  function FlagByte1(form: Form, f: Flags): Byte
    requires FlagsFit(f)
  {
    f.multiple * 0x20 + f.protocol * 2 + if form == LongExtended then 1 else 0
  }

  function FlagByte2(f: Flags): Byte
    requires FlagsFit(f)
  {
    f.other * 0x10 + (if f.toHost then 8 else 0) + (if f.byteBlock then 4 else 0) + f.length
  }

  function ToCdb(form: Form, f: Flags, r: Registers): Cdb
    requires FlagsFit(f)
  {
    match form
    case Short =>
      [0xa1, FlagByte1(form, f), FlagByte2(f), Lower(r.features), Lower(r.count), Lower(r.low), Lower(r.mid),
       Lower(r.high), r.device, r.command, 0, 0, 0, 0, 0, 0]
    case Long =>
      [0x85, FlagByte1(form, f), FlagByte2(f), 0, Lower(r.features), 0, Lower(r.count), 0, Lower(r.low), 0,
       Lower(r.mid), 0, Lower(r.high), r.device, r.command, 0]
    case LongExtended =>
      [0x85, FlagByte1(form, f), FlagByte2(f), Upper(r.features), Lower(r.features), Upper(r.count), Lower(r.count),
       Upper(r.low), Lower(r.low), Upper(r.mid), Lower(r.mid), Upper(r.high), Lower(r.high), r.device, r.command, 0]
  }

  predicate OneByteEach(r: Registers)
  {
    r.features < 0x100 && r.count < 0x100 && r.low < 0x100 && r.mid < 0x100 && r.high < 0x100
  }

  lemma Halves(w: Word16)
    ensures Pair(Upper(w), Lower(w)) == w
    ensures Lower(w) == w <==> w < 0x100
  {
  }

  lemma FlagBytes(form: Form, f: Flags)
    requires FlagsFit(f)
    ensures FlagByte1(form, f) / 0x20 == f.multiple && FlagByte1(form, f) / 2 % 0x10 == f.protocol
    ensures FlagByte1(form, f) % 2 == 1 <==> form == LongExtended
    ensures FlagByte2(f) / 8 % 2 == 1 <==> f.toHost
    ensures FlagByte2(f) % 4 == f.length
  {
  }

  /** The fields and registers arrive as they were meant, unless a short form drops an upper half. */
  lemma CdbRoundTripIff(form: Form, f: Flags, r: Registers)
    requires FlagsFit(f)
    ensures var c := ToCdb(form, f, r);
            && (FromCdb(c) == r <==> form == LongExtended || OneByteEach(r))
            && MultipleCount(c) == f.multiple && Protocol(c) == f.protocol
            && ToHost(c) == f.toHost && TransferLength(c) == f.length
            && (Extended(c) <==> form == LongExtended)
  {
    FlagBytes(form, f);
    Halves(r.features);
    Halves(r.count);
    Halves(r.low);
    Halves(r.mid);
    Halves(r.high);
    hide Upper, Lower, Pair, FlagByte1, FlagByte2;
  }

  // ----- the return descriptor

  const SENSE_SIZE: nat := 96

  type Sense = s: seq<Byte> | |s| == 96 witness seq(96, _ => 0)

  /** os_cmddone for a pass-through command: what is left in the registers goes into the sense buffer. */
  method WriteDescriptor(sense: Sense, extended: bool, r: Registers) returns (s: Sense)
    ensures s == Described(sense, extended, r)
  {
    hide Upper, Lower;
    s := sense[0 := 0x72][7 := 14];
    s := s[8 := 0x9][9 := 0xc];
    s := s[11 := Lower(r.features)][13 := Lower(r.count)];
    s := s[15 := Lower(r.low)][17 := Lower(r.mid)][19 := Lower(r.high)];
    if extended {
      s := s[10 := 1][12 := Upper(r.count)];
      s := s[14 := Upper(r.low)][16 := Upper(r.mid)][18 := Upper(r.high)];
    }
    s := s[20 := r.device][21 := r.command];
  }

  /** The i-th byte afterwards; without the extend bit the bytes of the upper halves stay. */
  function DescribedAt(sense: Sense, extended: bool, r: Registers, i: nat): Byte
    requires i < SENSE_SIZE
  {
    match i
    case 0 => 0x72
    case 7 => 14
    case 8 => 9
    case 9 => 12
    case 11 => Lower(r.features)
    case 13 => Lower(r.count)
    case 15 => Lower(r.low)
    case 17 => Lower(r.mid)
    case 19 => Lower(r.high)
    case 20 => r.device
    case 21 => r.command
    case _ => if extended && i in {10, 12, 14, 16, 18} then UpperAt(r, i) else sense[i]
  }

  function UpperAt(r: Registers, i: nat): Byte
  {
    match i
    case 12 => Upper(r.count)
    case 14 => Upper(r.low)
    case 16 => Upper(r.mid)
    case 18 => Upper(r.high)
    case _ => 1
  }

  function Described(sense: Sense, extended: bool, r: Registers): Sense
  {
    seq(SENSE_SIZE, i requires 0 <= i < SENSE_SIZE => DescribedAt(sense, extended, r, i))
  }

  /** What an initiator reads: the upper halves count only with the extend bit. */
  datatype Returned = Returned(extended: bool, error: Byte, count: Word16, low: Word16, mid: Word16, high: Word16,
                               device: Byte, status: Byte)

  /** The ATA Return descriptor of the SCSI/ATA translation standard, in descriptor format sense data. */
  function ReadDescriptor(sense: Sense): Option<Returned>
  {
    if sense[0] == 0x72 && sense[7] == 14 && sense[8] == 9 && sense[9] == 12 then
      var e := sense[10] % 2 == 1;
      Some(Returned(e, sense[11],
                    Pair(if e then sense[12] else 0, sense[13]), Pair(if e then sense[14] else 0, sense[15]),
                    Pair(if e then sense[16] else 0, sense[17]), Pair(if e then sense[18] else 0, sense[19]),
                    sense[20], sense[21]))
    else None
  }

  /** The registers as far as the form of the command returns them. */
  function Left(extended: bool, r: Registers): Returned
  {
    if extended then Returned(true, Lower(r.features), r.count, r.low, r.mid, r.high, r.device, r.command)
    else Returned(false, Lower(r.features), Lower(r.count), Lower(r.low), Lower(r.mid), Lower(r.high),
                  r.device, r.command)
  }

  /**
   * The initiator reads back the registers if and only if the command had the extend bit or the sense
   * buffer had it clear: the driver never clears it.
   */
  lemma DescriptorExactIff(sense: Sense, extended: bool, r: Registers)
    ensures ReadDescriptor(Described(sense, extended, r)) == Some(Left(extended, r)) <==> extended || sense[10] % 2 == 0
    ensures forall i :: 0 <= i < SENSE_SIZE && (i >= 22 || 0 < i < 7) ==> Described(sense, extended, r)[i] == sense[i]
  {
    Halves(r.count);
    Halves(r.low);
    Halves(r.mid);
    Halves(r.high);
    hide Upper, Lower;
  }
}
