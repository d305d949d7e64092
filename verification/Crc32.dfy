/**
 CRC-32 (src/crc32.cpp): the table-driven loop is bit-serial division by the reflected polynomial 0xedb88320,
 as in section 8 of RFC 1952.
 */
module Crc32 {

  const POLYNOMIAL: bv32 := 0xedb88320

  function Xor(a: bv32, b: bv32): bv32 {
    a ^ b
  }

  function Bit(b: bv32): bool {
    b & 1 == 1
  }

  function Down(b: bv32): bv32 {
    b >> 1
  }

  /** One place of division: shift out a bit, and subtract the polynomial if it was set. */
  function Shift(c: bv32): bv32 {
    if Bit(c) then Xor(Down(c), POLYNOMIAL) else Down(c)
  }

  function Shift4(c: bv32): bv32 {
    Shift(Shift(Shift(Shift(c))))
  }

  function Shift8(c: bv32): bv32 {
    Shift4(Shift4(c))
  }

  const ROW_0: seq<bv32> := [
    0x00000000, 0x77073096, 0xee0e612c, 0x990951ba,
    0x076dc419, 0x706af48f, 0xe963a535, 0x9e6495a3,
    0x0edb8832, 0x79dcb8a4, 0xe0d5e91e, 0x97d2d988,
    0x09b64c2b, 0x7eb17cbd, 0xe7b82d07, 0x90bf1d91]

  const ROW_1: seq<bv32> := [
    0x1db71064, 0x6ab020f2, 0xf3b97148, 0x84be41de,
    0x1adad47d, 0x6ddde4eb, 0xf4d4b551, 0x83d385c7,
    0x136c9856, 0x646ba8c0, 0xfd62f97a, 0x8a65c9ec,
    0x14015c4f, 0x63066cd9, 0xfa0f3d63, 0x8d080df5]

  const ROW_2: seq<bv32> := [
    0x3b6e20c8, 0x4c69105e, 0xd56041e4, 0xa2677172,
    0x3c03e4d1, 0x4b04d447, 0xd20d85fd, 0xa50ab56b,
    0x35b5a8fa, 0x42b2986c, 0xdbbbc9d6, 0xacbcf940,
    0x32d86ce3, 0x45df5c75, 0xdcd60dcf, 0xabd13d59]

  const ROW_3: seq<bv32> := [
    0x26d930ac, 0x51de003a, 0xc8d75180, 0xbfd06116,
    0x21b4f4b5, 0x56b3c423, 0xcfba9599, 0xb8bda50f,
    0x2802b89e, 0x5f058808, 0xc60cd9b2, 0xb10be924,
    0x2f6f7c87, 0x58684c11, 0xc1611dab, 0xb6662d3d]

  const ROW_4: seq<bv32> := [
    0x76dc4190, 0x01db7106, 0x98d220bc, 0xefd5102a,
    0x71b18589, 0x06b6b51f, 0x9fbfe4a5, 0xe8b8d433,
    0x7807c9a2, 0x0f00f934, 0x9609a88e, 0xe10e9818,
    0x7f6a0dbb, 0x086d3d2d, 0x91646c97, 0xe6635c01]

  const ROW_5: seq<bv32> := [
    0x6b6b51f4, 0x1c6c6162, 0x856530d8, 0xf262004e,
    0x6c0695ed, 0x1b01a57b, 0x8208f4c1, 0xf50fc457,
    0x65b0d9c6, 0x12b7e950, 0x8bbeb8ea, 0xfcb9887c,
    0x62dd1ddf, 0x15da2d49, 0x8cd37cf3, 0xfbd44c65]

  const ROW_6: seq<bv32> := [
    0x4db26158, 0x3ab551ce, 0xa3bc0074, 0xd4bb30e2,
    0x4adfa541, 0x3dd895d7, 0xa4d1c46d, 0xd3d6f4fb,
    0x4369e96a, 0x346ed9fc, 0xad678846, 0xda60b8d0,
    0x44042d73, 0x33031de5, 0xaa0a4c5f, 0xdd0d7cc9]

  const ROW_7: seq<bv32> := [
    0x5005713c, 0x270241aa, 0xbe0b1010, 0xc90c2086,
    0x5768b525, 0x206f85b3, 0xb966d409, 0xce61e49f,
    0x5edef90e, 0x29d9c998, 0xb0d09822, 0xc7d7a8b4,
    0x59b33d17, 0x2eb40d81, 0xb7bd5c3b, 0xc0ba6cad]

  const ROW_8: seq<bv32> := [
    0xedb88320, 0x9abfb3b6, 0x03b6e20c, 0x74b1d29a,
    0xead54739, 0x9dd277af, 0x04db2615, 0x73dc1683,
    0xe3630b12, 0x94643b84, 0x0d6d6a3e, 0x7a6a5aa8,
    0xe40ecf0b, 0x9309ff9d, 0x0a00ae27, 0x7d079eb1]

  const ROW_9: seq<bv32> := [
    0xf00f9344, 0x8708a3d2, 0x1e01f268, 0x6906c2fe,
    0xf762575d, 0x806567cb, 0x196c3671, 0x6e6b06e7,
    0xfed41b76, 0x89d32be0, 0x10da7a5a, 0x67dd4acc,
    0xf9b9df6f, 0x8ebeeff9, 0x17b7be43, 0x60b08ed5]

  const ROW_A: seq<bv32> := [
    0xd6d6a3e8, 0xa1d1937e, 0x38d8c2c4, 0x4fdff252,
    0xd1bb67f1, 0xa6bc5767, 0x3fb506dd, 0x48b2364b,
    0xd80d2bda, 0xaf0a1b4c, 0x36034af6, 0x41047a60,
    0xdf60efc3, 0xa867df55, 0x316e8eef, 0x4669be79]

  const ROW_B: seq<bv32> := [
    0xcb61b38c, 0xbc66831a, 0x256fd2a0, 0x5268e236,
    0xcc0c7795, 0xbb0b4703, 0x220216b9, 0x5505262f,
    0xc5ba3bbe, 0xb2bd0b28, 0x2bb45a92, 0x5cb36a04,
    0xc2d7ffa7, 0xb5d0cf31, 0x2cd99e8b, 0x5bdeae1d]

  const ROW_C: seq<bv32> := [
    0x9b64c2b0, 0xec63f226, 0x756aa39c, 0x026d930a,
    0x9c0906a9, 0xeb0e363f, 0x72076785, 0x05005713,
    0x95bf4a82, 0xe2b87a14, 0x7bb12bae, 0x0cb61b38,
    0x92d28e9b, 0xe5d5be0d, 0x7cdcefb7, 0x0bdbdf21]

  const ROW_D: seq<bv32> := [
    0x86d3d2d4, 0xf1d4e242, 0x68ddb3f8, 0x1fda836e,
    0x81be16cd, 0xf6b9265b, 0x6fb077e1, 0x18b74777,
    0x88085ae6, 0xff0f6a70, 0x66063bca, 0x11010b5c,
    0x8f659eff, 0xf862ae69, 0x616bffd3, 0x166ccf45]

  const ROW_E: seq<bv32> := [
    0xa00ae278, 0xd70dd2ee, 0x4e048354, 0x3903b3c2,
    0xa7672661, 0xd06016f7, 0x4969474d, 0x3e6e77db,
    0xaed16a4a, 0xd9d65adc, 0x40df0b66, 0x37d83bf0,
    0xa9bcae53, 0xdebb9ec5, 0x47b2cf7f, 0x30b5ffe9]

  const ROW_F: seq<bv32> := [
    0xbdbdf21c, 0xcabac28a, 0x53b39330, 0x24b4a3a6,
    0xbad03605, 0xcdd70693, 0x54de5729, 0x23d967bf,
    0xb3667a2e, 0xc4614ab8, 0x5d681b02, 0x2a6f2b94,
    0xb40bbe37, 0xc30c8ea1, 0x5a05df1b, 0x2d02ef8d]

  function Row(h: nat): (row: seq<bv32>)
    ensures |row| == 16
  {
    if h == 0 then ROW_0 else if h == 1 then ROW_1 else if h == 2 then ROW_2 else if h == 3 then ROW_3
    else if h == 4 then ROW_4 else if h == 5 then ROW_5 else if h == 6 then ROW_6 else if h == 7 then ROW_7
    else if h == 8 then ROW_8 else if h == 9 then ROW_9 else if h == 10 then ROW_A else if h == 11 then ROW_B
    else if h == 12 then ROW_C else if h == 13 then ROW_D else if h == 14 then ROW_E else ROW_F
  }

  /** crc32_tab[i] */
  function Table(i: nat): bv32
    requires i < 256
  {
    Row(i / 16)[i % 16]
  }

  // ---------------------------------------------------------------- the table holds eight places of division

  /** Eight places of division of a byte. */
  function Divided(n: nat): bv32 {
    if n < 256 then Shift8(n as bv32) else 0
  }

  /** A row holds the divisions of `n` and the next fifteen numbers. */
  predicate IsRow(row: seq<bv32>, n: nat) {
    row == [
      Divided(n), Divided(n + 1), Divided(n + 2), Divided(n + 3),
      Divided(n + 4), Divided(n + 5), Divided(n + 6), Divided(n + 7),
      Divided(n + 8), Divided(n + 9), Divided(n + 10), Divided(n + 11),
      Divided(n + 12), Divided(n + 13), Divided(n + 14), Divided(n + 15)]
  }

  lemma RowFirst(row: seq<bv32>, n: nat, j: nat)
    requires IsRow(row, n) && 0 <= j < 4
    ensures |row| == 16 && row[j] == Divided(n + j)
  {
    hide Divided;
  }

  lemma RowSecond(row: seq<bv32>, n: nat, j: nat)
    requires IsRow(row, n) && 4 <= j < 8
    ensures |row| == 16 && row[j] == Divided(n + j)
  {
    hide Divided;
  }

  lemma RowThird(row: seq<bv32>, n: nat, j: nat)
    requires IsRow(row, n) && 8 <= j < 12
    ensures |row| == 16 && row[j] == Divided(n + j)
  {
    hide Divided;
  }

  lemma RowFourth(row: seq<bv32>, n: nat, j: nat)
    requires IsRow(row, n) && 12 <= j < 16
    ensures |row| == 16 && row[j] == Divided(n + j)
  {
    hide Divided;
  }

  lemma EntryOfRow(row: seq<bv32>, n: nat, j: nat)
    requires IsRow(row, n) && j < 16
    ensures |row| == 16 && row[j] == Divided(n + j)
  {
    hide IsRow, Divided;
    if j < 4 {
      RowFirst(row, n, j);
    } else if j < 8 {
      RowSecond(row, n, j);
    } else if j < 12 {
      RowThird(row, n, j);
    } else {
      RowFourth(row, n, j);
    }
  }

  lemma Row0()
    ensures IsRow(ROW_0, 0x00)
  {}

  lemma Row1()
    ensures IsRow(ROW_1, 0x10)
  {}

  lemma Row2()
    ensures IsRow(ROW_2, 0x20)
  {}

  lemma Row3()
    ensures IsRow(ROW_3, 0x30)
  {}

  lemma Row4()
    ensures IsRow(ROW_4, 0x40)
  {}

  lemma Row5()
    ensures IsRow(ROW_5, 0x50)
  {}

  lemma Row6()
    ensures IsRow(ROW_6, 0x60)
  {}

  lemma Row7()
    ensures IsRow(ROW_7, 0x70)
  {}

  lemma Row8()
    ensures IsRow(ROW_8, 0x80)
  {}

  lemma Row9()
    ensures IsRow(ROW_9, 0x90)
  {}

  lemma RowA()
    ensures IsRow(ROW_A, 0xa0)
  {}

  lemma RowB()
    ensures IsRow(ROW_B, 0xb0)
  {}

  lemma RowC()
    ensures IsRow(ROW_C, 0xc0)
  {}

  lemma RowD()
    ensures IsRow(ROW_D, 0xd0)
  {}

  lemma RowE()
    ensures IsRow(ROW_E, 0xe0)
  {}

  lemma RowF()
    ensures IsRow(ROW_F, 0xf0)
  {}

  lemma RowIs(h: nat)
    requires h < 16
    ensures IsRow(Row(h), 16 * h)
  {
    hide IsRow;
    Row0(); Row1(); Row2(); Row3(); Row4(); Row5(); Row6(); Row7();
    Row8(); Row9(); RowA(); RowB(); RowC(); RowD(); RowE(); RowF();
  }

  /** A table entry is eight places of division of its index. */
  lemma TableDivides(i: nat)
    requires i < 256
    ensures Table(i) == Divided(i)
  {
    hide Row, Divided, IsRow;
    RowIs(i / 16);
    EntryOfRow(Row(i / 16), 16 * (i / 16), i % 16);
    assert 16 * (i / 16) + i % 16 == i;
  }

  // ---------------------------------------------------------------- division is linear

  lemma XorBit(x: bv32, y: bv32)
    ensures Bit(Xor(x, y)) <==> Bit(x) != Bit(y)
  {}

  lemma XorDown(x: bv32, y: bv32)
    ensures Down(Xor(x, y)) == Xor(Down(x), Down(y))
  {}

  lemma XorSwap(a: bv32, b: bv32, p: bv32)
    ensures Xor(Xor(a, p), b) == Xor(Xor(a, b), p) && Xor(a, Xor(b, p)) == Xor(Xor(a, b), p)
    ensures Xor(Xor(a, p), Xor(b, p)) == Xor(a, b)
  {}

  lemma ShiftLinear(x: bv32, y: bv32)
    ensures Shift(Xor(x, y)) == Xor(Shift(x), Shift(y))
  {
    hide Xor, Bit, Down;
    XorBit(x, y);
    XorDown(x, y);
    XorSwap(Down(x), Down(y), POLYNOMIAL);
  }

  lemma Shift4Linear(x: bv32, y: bv32)
    ensures Shift4(Xor(x, y)) == Xor(Shift4(x), Shift4(y))
  {
    hide Shift, Xor;
    ShiftLinear(x, y);
    ShiftLinear(Shift(x), Shift(y));
    ShiftLinear(Shift(Shift(x)), Shift(Shift(y)));
    ShiftLinear(Shift(Shift(Shift(x))), Shift(Shift(Shift(y))));
  }

  /** Dividing a sum adds the divisions. */
  lemma Shift8Linear(x: bv32, y: bv32)
    ensures Shift8(Xor(x, y)) == Xor(Shift8(x), Shift8(y))
  {
    hide Shift4, Xor;
    Shift4Linear(x, y);
    Shift4Linear(Shift4(x), Shift4(y));
  }

  function Low8(x: bv32): (y: bv32)
    ensures y <= 0xff
  {
    x & 0xff
  }

  function Index(x: bv32): (i: nat)
    ensures i < 256
  {
    Low8(x) as nat
  }

  function High24(x: bv32): bv32 {
    x & 0xffffff00
  }

  function Down8(x: bv32): bv32 {
    x >> 8
  }

  /** Bits above the lowest eight are only moved. */
  lemma HighBits(x: bv32)
    ensures Shift8(High24(x)) == Down8(x)
  {}

  lemma Halves(x: bv32)
    ensures Xor(Low8(x), High24(x)) == x
  {}

  lemma IndexDivided(x: bv32)
    ensures Divided(Index(x)) == Shift8(Low8(x))
  {
    hide Shift8;
    assert (Low8(x) as nat) as bv32 == Low8(x);
  }

  lemma ByteBelow(c: bv32, b: bv32)
    requires b <= 0xff
    ensures Down8(Xor(c, b)) == Down8(c)
  {}

  /** One table step is eight places of division. */
  lemma TableStep(c: bv32, b: bv32)
    requires b <= 0xff
    ensures Xor(Table(Index(Xor(c, b))), Down8(c)) == Shift8(Xor(c, b))
  {
    hide Table, Shift8, Xor, Low8, High24, Down8, Index, Divided;
    var x := Xor(c, b);
    Halves(x);
    TableDivides(Index(x));
    IndexDivided(x);
    HighBits(x);
    Shift8Linear(Low8(x), High24(x));
    ByteBelow(c, b);
  }

  // ---------------------------------------------------------------- bit by bit

  /** A byte widened to a word. */
  type Octet = b: bv32 | b <= 0xff

  /** Bit-serial division: the next message bit meets the lowest bit of the register. */
  function DivideBit(c: bv32, bit: bool): bv32 {
    if Bit(c) != bit then Xor(Down(c), POLYNOMIAL) else Down(c)
  }

  function DivideBits(c: bv32, bits: seq<bool>): bv32
    decreases |bits|
  {
    if bits == [] then c else DivideBits(DivideBit(c, bits[0]), bits[1..])
  }

  /** The lowest `n` bits, lowest first. */
  function LowBits(b: bv32, n: nat): (bits: seq<bool>)
    ensures |bits| == n
    decreases n
  {
    if n == 0 then [] else [Bit(b)] + LowBits(Down(b), n - 1)
  }

  /** The message as bits, each byte lowest bit first. */
  function MessageBits(message: seq<Octet>): seq<bool> {
    if message == [] then [] else LowBits(message[0], 8) + MessageBits(message[1..])
  }

  /** A bit that meets the register may as well be in it. */
  lemma BitAlone(c: bv32, b: bv32)
    ensures Shift(Xor(c, b)) == Xor(DivideBit(c, Bit(b)), Down(b))
  {
    hide Xor, Bit, Down;
    XorBit(c, b);
    XorDown(c, b);
    XorSwap(Down(c), Down(b), POLYNOMIAL);
  }

  function Shifts(c: bv32, n: nat): bv32
    decreases n
  {
    if n == 0 then c else Shifts(Shift(c), n - 1)
  }

  function Downs(b: bv32, n: nat): bv32
    decreases n
  {
    if n == 0 then b else Downs(Down(b), n - 1)
  }

  lemma {:induction false} BitsAlone(c: bv32, b: bv32, n: nat)
    ensures Shifts(Xor(c, b), n) == Xor(DivideBits(c, LowBits(b, n)), Downs(b, n))
    decreases n
  {
    hide Shift, Xor, DivideBit, Bit, Down;
    if n > 0 {
      BitAlone(c, b);
      BitsAlone(DivideBit(c, Bit(b)), Down(b), n - 1);
      assert LowBits(b, n)[1..] == LowBits(Down(b), n - 1);
    }
  }

  lemma EightShifts(c: bv32)
    ensures Shifts(c, 8) == Shift8(c)
  {
    hide Shift;
    assert Shifts(Shift4(c), 4) == Shift8(c);
    assert Shifts(c, 4 + 4) == Shifts(Shift4(c), 4);
  }

  lemma ByteGone(b: bv32)
    requires b <= 0xff
    ensures forall c :: Xor(c, Downs(b, 8)) == c
  {
    assert Downs(b, 8) == b >> 8;
  }

  /** A table step divides by the bits of the byte. */
  lemma TableStepDivides(c: bv32, b: Octet)
    ensures Xor(Table(Index(Xor(c, b))), Down8(c)) == DivideBits(c, LowBits(b, 8))
  {
    hide Table, Shift8, Xor, Index, Down8, Shifts, Downs, DivideBits, LowBits;
    TableStep(c, b);
    EightShifts(Xor(c, b));
    BitsAlone(c, b, 8);
    ByteGone(b);
  }

  lemma {:induction false} DivideAppend(c: bv32, a: seq<bool>, b: seq<bool>)
    ensures DivideBits(c, a + b) == DivideBits(DivideBits(c, a), b)
    decreases |a|
  {
    hide DivideBit;
    if a == [] {
      assert a + b == b;
    } else {
      assert (a + b)[1..] == a[1..] + b;
      DivideAppend(DivideBit(c, a[0]), a[1..], b);
    }
  }

  lemma {:induction false} MessageAppend(a: seq<Octet>, b: seq<Octet>)
    ensures MessageBits(a + b) == MessageBits(a) + MessageBits(b)
  {
    hide LowBits;
    if a == [] {
      assert a + b == b;
    } else {
      assert (a + b)[1..] == a[1..] + b;
      MessageAppend(a[1..], b);
    }
  }

  // ---------------------------------------------------------------- the code

  /** The register and the result are each other's complements. */
  function Complement(c: bv32): bv32 {
    c ^ 0xffffffff
  }

  /** The CRC of a message: the complement of dividing it into a register of ones. */
  function Crc(message: seq<Octet>): bv32 {
    Complement(DivideBits(0xffffffff, MessageBits(message)))
  }

  /** crc32 */
  method Crc32(buf: array<Octet>) returns (result: bv32)
    ensures result == Crc(buf[..])
  {
    hide Table, DivideBits, LowBits, Xor, Down8, Index;
    EmptyMessage(0xffffffff);
    var crc: bv32 := 0 ^ 0xffffffff;
    var p := 0;
    while p < buf.Length
      invariant 0 <= p <= buf.Length
      invariant crc == DivideBits(0xffffffff, MessageBits(buf[..p]))
    {
      TableStepDivides(crc, buf[p]);
      OneByteMore(0xffffffff, buf[..p], buf[p]);
      assert buf[..p + 1] == buf[..p] + [buf[p]];
      crc := Xor(Table(Index(Xor(crc, buf[p]))), Down8(crc));
      p := p + 1;
    }
    assert buf[..buf.Length] == buf[..];
    result := crc ^ 0xffffffff;
  }

  lemma EmptyMessage(c: bv32)
    ensures DivideBits(c, MessageBits([])) == c
  {}

  lemma OneByteMore(c: bv32, message: seq<Octet>, b: Octet)
    ensures DivideBits(c, MessageBits(message + [b])) == DivideBits(DivideBits(c, MessageBits(message)), LowBits(b, 8))
  {
    hide DivideBits, LowBits;
    MessageAppend(message, [b]);
    assert [b][1..] == [];
    assert MessageBits([b]) == LowBits(b, 8) + [] == LowBits(b, 8);
    DivideAppend(c, MessageBits(message), LowBits(b, 8));
  }

  lemma ComplementTwice(c: bv32)
    ensures Complement(Complement(c)) == c
  {}

  /** The CRC of a concatenation continues from the first part's register. */
  lemma CrcContinues(a: seq<Octet>, b: seq<Octet>)
    ensures Crc(a + b) == Complement(DivideBits(Complement(Crc(a)), MessageBits(b)))
  {
    hide DivideBits, MessageBits, Complement;
    MessageAppend(a, b);
    DivideAppend(0xffffffff, MessageBits(a), MessageBits(b));
    ComplementTwice(DivideBits(0xffffffff, MessageBits(a)));
  }

  /** The register after one more byte of a message. */
  lemma Step(message: seq<Octet>, k: nat, c: bv32, i: nat, c': bv32)
    requires k < |message| && DivideBits(0xffffffff, MessageBits(message[..k])) == c
    requires i < 256 && Index(Xor(c, message[k])) == i && Xor(Table(i), Down8(c)) == c'
    ensures DivideBits(0xffffffff, MessageBits(message[..k + 1])) == c'
  {
    hide Table, DivideBits, LowBits, MessageBits, Xor, Down8, Index;
    TableStepDivides(c, message[k]);
    OneByteMore(0xffffffff, message[..k], message[k]);
    assert message[..k + 1] == message[..k] + [message[k]];
  }

  const DIGITS: seq<Octet> := [0x31, 0x32, 0x33, 0x34, 0x35, 0x36, 0x37, 0x38, 0x39]

  lemma FirstThree()
    ensures DivideBits(0xffffffff, MessageBits(DIGITS[..3])) == 0x77b79c2d
  {
    hide DivideBits, LowBits, MessageBits;
    EmptyMessage(0xffffffff);
    assert DIGITS[..0] == [];
    Step(DIGITS, 0, 0xffffffff, 206, 0x7c231048);
    Step(DIGITS, 1, 0x7c231048, 122, 0xb0acbb32);
    Step(DIGITS, 2, 0xb0acbb32, 1, 0x77b79c2d);
  }

  lemma NextThree()
    ensures DivideBits(0xffffffff, MessageBits(DIGITS[..6])) == 0xf68d2c9e
  {
    hide DivideBits, LowBits, MessageBits;
    FirstThree();
    Step(DIGITS, 3, 0x77b79c2d, 25, 0x641c1f5c);
    Step(DIGITS, 4, 0x641c1f5c, 105, 0x340ac5e3);
    Step(DIGITS, 5, 0x340ac5e3, 213, 0xf68d2c9e);
  }

  /** The check value of CRC-32, the CRC of the digits from 1 to 9. */
  lemma CheckValue()
    ensures Crc(DIGITS) == 0xcbf43926
  {
    hide DivideBits, LowBits, MessageBits;
    NextThree();
    Step(DIGITS, 6, 0xf68d2c9e, 169, 0xaffc9660);
    Step(DIGITS, 7, 0xaffc9660, 88, 0x651f2550);
    Step(DIGITS, 8, 0x651f2550, 105, 0x340bc6d9);
    assert DIGITS[..9] == DIGITS;
  }
}
