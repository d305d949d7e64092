/**
 R600 surface tiling (src/gpu/mesa_r600_tiling.cpp, colour paths): where an element of a surface
 lives in memory.
 */
module Tiling {
  import opened Words

  // ---------------------------------------------------------------- parameters

  datatype Surface = Surface(
    cpp: int,           // bytes per element
    pitch: int,         // bytes per row
    height: int,        // rows
    groupBytes: int,
    channels: int,
    banks: int,
    bankOp: bool)       // r7xx_bank_op
  {
    function TileBytes(): int {
      64 * cpp
    }

    /** The hardware configurations and element sizes the tiling is defined for. */
    ghost predicate Valid() {
      && cpp in {1, 2, 4, 8, 16} && channels in {2, 4, 8} && banks in {4, 8}
      && pitch >= 0 && groupBytes > 0 && groupBytes == Pow2(Log2(groupBytes))
      && TileBytes() % groupBytes == 0
    }

    /** `w` macro tiles in a row and `h` in a column. */
    ghost predicate Macro(w: nat, h: nat) {
      Valid() && pitch == cpp * (8 * banks * w) && height == 8 * channels * h
    }

    predicate Has(w: nat, h: nat, x: int, y: int) {
      0 <= x < 8 * banks * w && 0 <= y < 8 * channels * h
    }
  }

  /** floor(log2(n)) */
  function Log2(n: int): nat
    requires n > 0
  {
    if n == 1 then 0 else 1 + Log2(n / 2)
  }

  lemma {:induction false} Log2IsFloor(n: int)
    requires n > 0
    ensures Pow2(Log2(n)) <= n < 2 * Pow2(Log2(n))
  {
    if n > 1 {
      Log2IsFloor(n / 2);
    }
  }

  /** r600_log2 */
  method RunLog2(n: int) returns (log2: nat)
    requires n > 0
    ensures log2 == Log2(n)
  {
    log2 := 0;
    var m := n / 2;
    while m != 0
      invariant m >= 0 && Log2(n) == log2 + (if m == 0 then 0 else 1 + Log2(m))
      decreases m
    {
      log2 := log2 + 1;
      m := m / 2;
    }
  }

  // ---------------------------------------------------------------- the address map

  /** Exclusive or of bits. */
  function Xor(a: int, b: int): (c: int)
    requires 0 <= a <= 1 && 0 <= b <= 1
    ensures 0 <= c <= 1
  {
    if a == b then 0 else 1
  }

  function Number3(b0: int, b1: int, b2: int): int {
    b0 + 2 * b1 + 4 * b2
  }

  function Number6(b0: int, b1: int, b2: int, b3: int, b4: int, b5: int): int {
    b0 + 2 * b1 + 4 * b2 + 8 * b3 + 16 * b4 + 32 * b5
  }

  /** r600_coord_within_microtile */
  function PixelNumber(x: nat, y: nat, elementBytes: int): int {
    var x0, x1, x2 := Bit(x, 0), Bit(x, 1), Bit(x, 2);
    var y0, y1, y2 := Bit(y, 0), Bit(y, 1), Bit(y, 2);
    if elementBytes == 1 then Number6(x0, x1, x2, y1, y0, y2)
    else if elementBytes == 2 then Number6(x0, x1, x2, y0, y1, y2)
    else if elementBytes == 4 then Number6(x0, x1, y0, x2, y1, y2)
    else if elementBytes == 8 then Number6(x0, y0, x1, x2, y1, y2)
    else if elementBytes == 16 then Number6(y0, x0, x1, x2, y1, y2)
    else 0
  }

  function Channel(channels: int, x: nat, y: nat): int {
    if channels == 4 then
      Number3(Xor(Bit(x, 4), Bit(y, 3)), Xor(Bit(x, 3), Bit(y, 4)), 0)
    else if channels == 8 then
      Number3(Xor(Bit(x, 5), Bit(y, 3)),
              Xor(Xor(Bit(x, 4), Bit(x, 5)), Bit(y, 4)),
              Xor(Bit(x, 3), Bit(y, 5)))
    else
      Number3(Xor(Bit(x, 3), Bit(y, 3)), 0, 0)
  }

  function Bank(banks: int, bankOp: bool, channelBits: nat, x: nat, y: nat): int {
    if banks == 4 then
      Number3(Xor(Bit(x, 3), Bit(y, 4 + channelBits)),
              Flip(bankOp, Xor(Bit(x, 4), Bit(y, 3 + channelBits)), Bit(x, 5)),
              0)
    else if banks == 8 then
      Number3(Xor(Bit(x, 3), Bit(y, 5 + channelBits)),
              Xor(Xor(Bit(x, 4), Bit(y, 4 + channelBits)), Bit(y, 5 + channelBits)),
              Flip(bankOp, Xor(Bit(x, 5), Bit(y, 3 + channelBits)), Bit(x, 6)))
    else 0
  }

  /** Exclusive or when the R7xx bank operation is on. */
  function Flip(op: bool, b: int, m: int): (c: int)
    requires 0 <= b <= 1 && 0 <= m <= 1
    ensures 0 <= c <= 1
  {
    if op then Xor(b, m) else b
  }

  /** r600_2d_tile_helper for colour, slice and sample 0 */
  function Offset2D(s: Surface, x: nat, y: nat): int
    requires s.groupBytes > 0 && s.channels > 0 && s.banks > 0 && s.cpp > 0 && s.pitch >= 0
  {
    var groupBits, channelBits, bankBits := Log2(s.groupBytes), Log2(s.channels), Log2(s.banks);
    var pitchElements := (s.pitch / s.cpp) / 8;
    var channel := Channel(s.channels, x, y);
    var bank := Bank(s.banks, s.bankOp, channelBits, x, y);
    var tileBytes := 8 * 8 * s.cpp;
    var macroTileBytes := s.banks * s.channels * tileBytes;
    var macroTilesPerRow := pitchElements / s.banks;
    var macroTileRow := (y / 8) / s.channels;
    var macroTileColumn := (x / 8) / s.banks;
    var macroTileOffset := (macroTileRow * macroTilesPerRow + macroTileColumn) * macroTileBytes;
    var elementOffset := PixelNumber(x, y, s.cpp) * s.cpp;
    var totalOffset := macroTileOffset / Pow2(channelBits + bankBits) + elementOffset;
    var offsetLow := totalOffset % Pow2(groupBits);
    var offsetHigh := (totalOffset - offsetLow) * Pow2(channelBits + bankBits);
    bank * Pow2(groupBits + channelBits) + channel * Pow2(groupBits) + offsetLow + offsetHigh
  }

  // ---------------------------------------------------------------- micro tiles

  /** The pixel of a micro tile that has a given number. */
  function PixelAt(n: nat, elementBytes: int): (int, int) {
    var b0, b1, b2, b3, b4, b5 :=
      Bit(n, 0), Bit(n, 1), Bit(n, 2), Bit(n, 3), Bit(n, 4), Bit(n, 5);
    if elementBytes == 1 then (Number3(b0, b1, b2), Number3(b4, b3, b5))
    else if elementBytes == 2 then (Number3(b0, b1, b2), Number3(b3, b4, b5))
    else if elementBytes == 4 then (Number3(b0, b1, b3), Number3(b2, b4, b5))
    else if elementBytes == 8 then (Number3(b0, b2, b3), Number3(b1, b4, b5))
    else (Number3(b1, b2, b3), Number3(b0, b4, b5))
  }

  predicate AreBits(a: int, b: int, c: int) {
    0 <= a <= 1 && 0 <= b <= 1 && 0 <= c <= 1
  }

  lemma ShiftFirst(v: nat)
    ensures Bit(v, 0) == v % 2 && v == 2 * (v / 2) + Bit(v, 0)
  {}

  lemma ShiftNext(v: nat, k: nat)
    ensures Bit(v, k + 1) == Bit(v / 2, k)
  {}

  /** A number put together from a low bit and the rest. */
  lemma ShiftCons(b: int, v: nat)
    requires 0 <= b <= 1
    ensures Bit(b + 2 * v, 0) == b && forall k: nat :: Bit(b + 2 * v, k + 1) == Bit(v, k)
  {
    assert (b + 2 * v) / 2 == v;
  }

  lemma Number3Bits(a: int, b: int, c: int)
    requires AreBits(a, b, c)
    ensures var n := Number3(a, b, c);
      0 <= n < 8 && Bit(n, 0) == a && Bit(n, 1) == b && Bit(n, 2) == c
  {
    hide Bit;
    ShiftFirst(c);
    ShiftCons(b, c);
    ShiftCons(a, b + 2 * c);
    assert Bit(b + 2 * c, 0 + 1) == Bit(c, 0);
    assert Bit(a + 2 * (b + 2 * c), 0 + 1) == Bit(b + 2 * c, 0);
    assert Bit(a + 2 * (b + 2 * c), 1 + 1) == Bit(b + 2 * c, 1);
    assert Number3(a, b, c) == a + 2 * (b + 2 * c);
  }

  lemma Mod8(n: int, q: int, r: int)
    requires n == 8 * q + r && 0 <= r < 8
    ensures n % 8 == r && n / 8 == q
  {}

  lemma Number3Of(n: nat)
    ensures Number3(Bit(n, 0), Bit(n, 1), Bit(n, 2)) == n % 8
  {
    hide Bit;
    var n1 := n / 2;
    var n2 := n1 / 2;
    var n3 := n2 / 2;
    ShiftFirst(n);
    ShiftFirst(n1);
    ShiftFirst(n2);
    ShiftNext(n, 0);
    ShiftNext(n, 1);
    ShiftNext(n1, 0);
    Mod8(n, n3, Number3(Bit(n, 0), Bit(n, 1), Bit(n, 2)));
  }

  lemma Number6Bits(a: int, b: int, c: int, d: int, e: int, f: int)
    requires AreBits(a, b, c) && AreBits(d, e, f)
    ensures var n := Number6(a, b, c, d, e, f);
      && 0 <= n < 64 && Bit(n, 0) == a && Bit(n, 1) == b && Bit(n, 2) == c
      && Bit(n, 3) == d && Bit(n, 4) == e && Bit(n, 5) == f
  {
    hide Bit;
    var m := Number3(d, e, f);
    Number3Bits(d, e, f);
    Number6Low(a, b, c, m);
    assert Number6(a, b, c, d, e, f) == a + 2 * (b + 2 * (c + 2 * m));
  }

  lemma Number6Low(a: int, b: int, c: int, m: nat)
    requires AreBits(a, b, c)
    ensures var n := a + 2 * (b + 2 * (c + 2 * m));
      && Bit(n, 0) == a && Bit(n, 1) == b && Bit(n, 2) == c
      && Bit(n, 3) == Bit(m, 0) && Bit(n, 4) == Bit(m, 1) && Bit(n, 5) == Bit(m, 2)
  {
    hide Bit;
    var m1 := c + 2 * m;
    var m2 := b + 2 * m1;
    var n := a + 2 * m2;
    ShiftCons(c, m);
    ShiftCons(b, m1);
    ShiftCons(a, m2);
    assert Bit(n, 0 + 1) == Bit(m2, 0);
    assert Bit(n, 1 + 1) == Bit(m2, 0 + 1) == Bit(m1, 0);
    assert Bit(n, 2 + 1) == Bit(m2, 1 + 1) == Bit(m1, 0 + 1) == Bit(m, 0);
    assert Bit(n, 3 + 1) == Bit(m2, 2 + 1) == Bit(m1, 1 + 1) == Bit(m, 0 + 1);
    assert Bit(n, 4 + 1) == Bit(m2, 3 + 1) == Bit(m1, 2 + 1) == Bit(m, 1 + 1);
  }

  lemma Number6Of(n: nat)
    requires n < 64
    ensures Number6(Bit(n, 0), Bit(n, 1), Bit(n, 2), Bit(n, 3), Bit(n, 4), Bit(n, 5)) == n
  {
    hide Bit, Number3, Number6;
    var q, r := n / 8, n % 8;
    Number3Of(n);
    Number3Of(q);
    Mod8(q, 0, q);
    Shift3(n, 0);
    Shift3(n, 1);
    Shift3(n, 2);
    TwoNumbers3(Bit(n, 0), Bit(n, 1), Bit(n, 2), Bit(q, 0), Bit(q, 1), Bit(q, 2));
  }

  lemma TwoNumbers3(a: int, b: int, c: int, d: int, e: int, f: int)
    ensures Number6(a, b, c, d, e, f) == Number3(a, b, c) + 8 * Number3(d, e, f)
  {}

  lemma Shift3(v: nat, k: nat)
    ensures Bit(v, 3 + k) == Bit(v / 8, k)
  {
    assert v / 2 / 2 / 2 == v / 8;
    ShiftNext(v, 2 + k);
    ShiftNext(v / 2, 1 + k);
    ShiftNext(v / 2 / 2, k);
  }

  /** The micro tile numbering is a permutation of its 64 pixels. */
  lemma PixelOfNumber(x: nat, y: nat, e: int)
    requires e in {1, 2, 4, 8, 16}
    ensures 0 <= PixelNumber(x, y, e) < 64 && PixelAt(PixelNumber(x, y, e), e) == (x % 8, y % 8)
  {
    hide Bit, Number3, Number6;
    var x0, x1, x2 := Bit(x, 0), Bit(x, 1), Bit(x, 2);
    var y0, y1, y2 := Bit(y, 0), Bit(y, 1), Bit(y, 2);
    Number3Of(x);
    Number3Of(y);
    Number6Bits(x0, x1, x2, y1, y0, y2);
    Number6Bits(x0, x1, x2, y0, y1, y2);
    Number6Bits(x0, x1, y0, x2, y1, y2);
    Number6Bits(x0, y0, x1, x2, y1, y2);
    Number6Bits(y0, x0, x1, x2, y1, y2);
  }

  lemma NumberOfPixel(n: nat, e: int)
    requires e in {1, 2, 4, 8, 16} && n < 64
    ensures var (x, y) := PixelAt(n, e); 0 <= x < 8 && 0 <= y < 8 && PixelNumber(x, y, e) == n
  {
    hide Bit, Number3, Number6;
    var b0, b1, b2, b3, b4, b5 :=
      Bit(n, 0), Bit(n, 1), Bit(n, 2), Bit(n, 3), Bit(n, 4), Bit(n, 5);
    Number6Of(n);
    if e == 1 {
      Number3Bits(b0, b1, b2);
      Number3Bits(b4, b3, b5);
    } else if e == 2 {
      Number3Bits(b0, b1, b2);
      Number3Bits(b3, b4, b5);
    } else if e == 4 {
      Number3Bits(b0, b1, b3);
      Number3Bits(b2, b4, b5);
    } else if e == 8 {
      Number3Bits(b0, b2, b3);
      Number3Bits(b1, b4, b5);
    } else {
      Number3Bits(b1, b2, b3);
      Number3Bits(b0, b4, b5);
    }
  }

  // ---------------------------------------------------------------- banks and channels

  /** The bits of the tile column that give a bank, in the macro tile at column `mx`, row `my`. */
  function TileX(s: Surface, mx: nat, my: nat, bank: nat): (t: (int, int, int))
    ensures AreBits(t.0, t.1, t.2)
  {
    var m0 := Bit(mx, 0);
    var n0, n1, n2 := Bit(my, 0), Bit(my, 1), Bit(my, 2);
    var b0, b1, b2 := Bit(bank, 0), Bit(bank, 1), Bit(bank, 2);
    if s.banks == 4 then (Xor(b0, n1), Xor(Flip(s.bankOp, b1, m0), n0), 0)
    else (Xor(b0, n2), Xor(Xor(b1, n2), n1), Xor(Flip(s.bankOp, b2, m0), n0))
  }

  /** The bits of the tile row that give a channel, in a tile column with the bits `t0`, `t1`, `t2`. */
  function TileY(s: Surface, mx: nat, t0: int, t1: int, t2: int, channel: nat): (u: (int, int, int))
    requires AreBits(t0, t1, t2)
    ensures AreBits(u.0, u.1, u.2)
  {
    var c0, c1, c2 := Bit(channel, 0), Bit(channel, 1), Bit(channel, 2);
    var x5 := if s.banks == 4 then Bit(mx, 0) else t2;
    if s.channels == 2 then (Xor(c0, t0), 0, 0)
    else if s.channels == 4 then (Xor(c0, t1), Xor(c1, t0), 0)
    else (Xor(c0, x5), Xor(Xor(c1, x5), t1), Xor(c2, t0))
  }

  /** The tile of a macro tile that has a given bank and channel. */
  function TileAt(s: Surface, mx: nat, my: nat, bank: nat, channel: nat): (int, int) {
    var t := TileX(s, mx, my, bank);
    var u := TileY(s, mx, t.0, t.1, t.2, channel);
    (Number3(t.0, t.1, t.2), Number3(u.0, u.1, u.2))
  }

  /** The bits of a tile coordinate: those of its place `t` in the macro tile, then the macro tile's. */
  lemma TileBits2(m: nat, t: nat)
    requires t < 2
    ensures var q := 2 * m + t;
      && Bit(q, 0) == Bit(t, 0) == t
      && Bit(q, 1) == Bit(m, 0) && Bit(q, 2) == Bit(m, 1) && Bit(q, 3) == Bit(m, 2)
    ensures Bit(t, 1) == 0 && Bit(t, 2) == 0
  {
    hide Bit;
    ShiftCons(t, m);
    ShiftFirst(t);
    ShiftFirst(0);
    ShiftNext(t, 0);
    ShiftNext(t, 1);
    ShiftNext(0, 0);
    assert Bit(t + 2 * m, 0 + 1) == Bit(m, 0);
    assert Bit(t + 2 * m, 1 + 1) == Bit(m, 1);
    assert Bit(t + 2 * m, 2 + 1) == Bit(m, 2);
  }

  lemma TileBits4(m: nat, t: nat)
    requires t < 4
    ensures var q := 4 * m + t;
      && Bit(q, 0) == Bit(t, 0) && Bit(q, 1) == Bit(t, 1)
      && Bit(q, 2) == Bit(m, 0) && Bit(q, 3) == Bit(m, 1) && Bit(q, 4) == Bit(m, 2)
    ensures Bit(t, 2) == 0
  {
    hide Bit;
    ShiftFirst(t);
    var r := 2 * m + t / 2;
    TileBits2(m, t / 2);
    ShiftCons(Bit(t, 0), r);
    ShiftNext(t, 0);
    ShiftNext(t, 1);
    var q := Bit(t, 0) + 2 * r;
    assert q == 4 * m + t;
    assert Bit(q, 0 + 1) == Bit(r, 0);
    assert Bit(q, 1 + 1) == Bit(r, 1);
    assert Bit(q, 2 + 1) == Bit(r, 2);
    assert Bit(q, 3 + 1) == Bit(r, 3);
  }

  lemma TileBits8(m: nat, t: nat)
    requires t < 8
    ensures var q := 8 * m + t;
      && Bit(q, 0) == Bit(t, 0) && Bit(q, 1) == Bit(t, 1) && Bit(q, 2) == Bit(t, 2)
      && Bit(q, 3) == Bit(m, 0) && Bit(q, 4) == Bit(m, 1) && Bit(q, 5) == Bit(m, 2)
  {
    hide Bit;
    ShiftFirst(t);
    var r := 4 * m + t / 2;
    TileBits4(m, t / 2);
    ShiftCons(Bit(t, 0), r);
    ShiftNext(t, 0);
    ShiftNext(t, 1);
    var q := Bit(t, 0) + 2 * r;
    assert q == 8 * m + t;
    assert Bit(q, 0 + 1) == Bit(r, 0);
    assert Bit(q, 1 + 1) == Bit(r, 1);
    assert Bit(q, 2 + 1) == Bit(r, 2);
    assert Bit(q, 3 + 1) == Bit(r, 3);
    assert Bit(q, 4 + 1) == Bit(r, 4);
  }

  /** Bits 3 and up of a coordinate, in terms of its macro tile `m` and its place `t` in it. */
  lemma CoordinateBits(v: nat, n: nat, m: nat, t: nat)
    requires n in {2, 4, 8} && v / 8 == n * m + t && t < n
    ensures Bit(v, 3) == Bit(t, 0)
    ensures n >= 4 ==> Bit(v, 4) == Bit(t, 1)
    ensures n == 8 ==> Bit(v, 5) == Bit(t, 2)
    ensures n < 8 ==> Bit(t, 2) == 0
    ensures n < 4 ==> Bit(t, 1) == 0
    ensures Bit(v, 3 + Log2(n)) == Bit(m, 0) && Bit(v, 4 + Log2(n)) == Bit(m, 1)
    ensures Bit(v, 5 + Log2(n)) == Bit(m, 2)
  {
    hide Bit, Log2;
    Log2Small();
    Shift3(v, 0);
    Shift3(v, 1);
    Shift3(v, 2);
    Shift3(v, 3);
    Shift3(v, 4);
    Shift3(v, 5);
    TileBits(v / 8, n, m, t);
  }

  lemma TileBits(q: nat, n: nat, m: nat, t: nat)
    requires n in {2, 4, 8} && q == n * m + t && t < n
    ensures Bit(q, 0) == Bit(t, 0)
    ensures n == 2 ==> Bit(q, 1) == Bit(m, 0) && Bit(q, 2) == Bit(m, 1) && Bit(q, 3) == Bit(m, 2)
    ensures n >= 4 ==> Bit(q, 1) == Bit(t, 1)
    ensures n == 4 ==> Bit(q, 2) == Bit(m, 0) && Bit(q, 3) == Bit(m, 1) && Bit(q, 4) == Bit(m, 2)
    ensures n == 8 ==> Bit(q, 2) == Bit(t, 2)
    ensures n == 8 ==> Bit(q, 3) == Bit(m, 0) && Bit(q, 4) == Bit(m, 1) && Bit(q, 5) == Bit(m, 2)
    ensures n < 8 ==> Bit(t, 2) == 0
    ensures n < 4 ==> Bit(t, 1) == 0
  {
    hide Bit;
    if n == 2 {
      TileBits2(m, t);
    } else if n == 4 {
      TileBits4(m, t);
    } else {
      TileBits8(m, t);
    }
  }

  lemma Log2Small()
    ensures Log2(2) == 1 && Log2(4) == 2 && Log2(8) == 3
  {
    assert Log2(1) == 0;
  }

  /** Where an element's tile is: its macro tile, and its place in that. */
  predicate Located(s: Surface, x: nat, y: nat, mx: nat, my: nat, tx: nat, ty: nat) {
    && x / 8 == s.banks * mx + tx && tx < s.banks
    && y / 8 == s.channels * my + ty && ty < s.channels
  }

  lemma XorXor(a: int, b: int)
    requires 0 <= a <= 1 && 0 <= b <= 1
    ensures Xor(Xor(a, b), b) == a
  {}

  lemma FlipFlip(op: bool, a: int, m: int)
    requires 0 <= a <= 1 && 0 <= m <= 1
    ensures Flip(op, Flip(op, a, m), m) == a
  {}

  /** The bits of the bank number, with the macro tile's share taken out again. */
  lemma BankBits(s: Surface, x: nat, y: nat, mx: nat, my: nat, tx: nat, ty: nat)
    requires s.channels in {2, 4, 8} && s.banks in {4, 8} && Located(s, x, y, mx, my, tx, ty)
    ensures var bank := Bank(s.banks, s.bankOp, Log2(s.channels), x, y);
      && 0 <= bank < s.banks
      && TileX(s, mx, my, bank) == (Bit(tx, 0), Bit(tx, 1), Bit(tx, 2))
  {
    hide Bit, Log2, Xor, Flip;
    Log2Small();
    CoordinateBits(x, s.banks, mx, tx);
    CoordinateBits(y, s.channels, my, ty);
    var m0 := Bit(mx, 0);
    var n0, n1, n2 := Bit(my, 0), Bit(my, 1), Bit(my, 2);
    var x3, x4, x5 := Bit(tx, 0), Bit(tx, 1), Bit(tx, 2);
    if s.banks == 4 {
      Number3Bits(Xor(x3, n1), Flip(s.bankOp, Xor(x4, n0), m0), 0);
      XorXor(x3, n1);
      FlipFlip(s.bankOp, Xor(x4, n0), m0);
      XorXor(x4, n0);
    } else {
      Number3Bits(Xor(x3, n2), Xor(Xor(x4, n1), n2), Flip(s.bankOp, Xor(x5, n0), m0));
      XorXor(x3, n2);
      XorXor(Xor(x4, n1), n2);
      XorXor(x4, n1);
      FlipFlip(s.bankOp, Xor(x5, n0), m0);
      XorXor(x5, n0);
    }
  }

  lemma ChannelBits(s: Surface, x: nat, y: nat, mx: nat, my: nat, tx: nat, ty: nat)
    requires s.channels in {2, 4, 8} && s.banks in {4, 8} && Located(s, x, y, mx, my, tx, ty)
    ensures var channel := Channel(s.channels, x, y);
      && 0 <= channel < s.channels
      && TileY(s, mx, Bit(tx, 0), Bit(tx, 1), Bit(tx, 2), channel)
         == (Bit(ty, 0), Bit(ty, 1), Bit(ty, 2))
  {
    hide Bit, Log2, Xor;
    Log2Small();
    CoordinateBits(x, s.banks, mx, tx);
    CoordinateBits(y, s.channels, my, ty);
    var x3, x4, x5 := Bit(tx, 0), Bit(tx, 1), Bit(x, 5);
    var y3, y4, y5 := Bit(ty, 0), Bit(ty, 1), Bit(ty, 2);
    XorSymmetric(x3, y3);
    XorSymmetric(x4, y3);
    XorSymmetric(x3, y4);
    if s.channels == 2 {
      Number3Bits(Xor(x3, y3), 0, 0);
      XorXor(y3, x3);
    } else if s.channels == 4 {
      Number3Bits(Xor(x4, y3), Xor(x3, y4), 0);
      XorXor(y3, x4);
      XorXor(y4, x3);
    } else {
      Number3Bits(Xor(x5, y3), Xor(Xor(x4, x5), y4), Xor(x3, y5));
      XorSymmetric(x5, y3);
      XorSymmetric(x3, y5);
      XorXor(y3, x5);
      XorXor(y5, x3);
      XorThree(x4, x5, y4);
    }
  }

  lemma XorSymmetric(a: int, b: int)
    requires 0 <= a <= 1 && 0 <= b <= 1
    ensures Xor(a, b) == Xor(b, a)
  {}

  lemma XorThree(a: int, b: int, c: int)
    requires 0 <= a <= 1 && 0 <= b <= 1 && 0 <= c <= 1
    ensures Xor(Xor(Xor(Xor(a, b), c), b), a) == c
  {}

  /** Bank and channel determine the tile within its macro tile. */
  lemma TileOfMix(s: Surface, x: nat, y: nat, mx: nat, my: nat, tx: nat, ty: nat)
    requires s.channels in {2, 4, 8} && s.banks in {4, 8} && Located(s, x, y, mx, my, tx, ty)
    ensures var bank, channel := Bank(s.banks, s.bankOp, Log2(s.channels), x, y), Channel(s.channels, x, y);
      && 0 <= bank < s.banks && 0 <= channel < s.channels
      && TileAt(s, mx, my, bank, channel) == (tx, ty)
  {
    hide Bit, Log2, TileX, TileY, Bank, Channel, Number3;
    BankBits(s, x, y, mx, my, tx, ty);
    ChannelBits(s, x, y, mx, my, tx, ty);
    Number3Of(tx);
    Number3Of(ty);
  }

  // ---------------------------------------------------------------- from banks and channels back to tiles

  lemma TileAtRange(s: Surface, mx: nat, my: nat, bank: nat, channel: nat)
    requires s.channels in {2, 4, 8} && s.banks in {4, 8}
    ensures var t := TileAt(s, mx, my, bank, channel); 0 <= t.0 < s.banks && 0 <= t.1 < s.channels
  {
    hide Bit, Xor, Flip;
  }

  lemma XorInjective(a: int, a': int, b: int)
    requires 0 <= a <= 1 && 0 <= a' <= 1 && 0 <= b <= 1 && Xor(a, b) == Xor(a', b)
    ensures a == a'
  {}

  lemma FlipInjective(op: bool, a: int, a': int, m: int)
    requires 0 <= a <= 1 && 0 <= a' <= 1 && 0 <= m <= 1 && Flip(op, a, m) == Flip(op, a', m)
    ensures a == a'
  {}

  lemma SmallBits(v: nat)
    ensures v < 4 ==> Bit(v, 2) == 0
    ensures v < 2 ==> Bit(v, 1) == 0
  {
    if v < 2 {
      TileBits2(0, v);
    } else if v < 4 {
      TileBits4(0, v);
    }
  }

  /** Numbers below 8 with the same bits are equal. */
  lemma SameBits(v: nat, v': nat)
    requires v < 8 && v' < 8
    requires Bit(v, 0) == Bit(v', 0) && Bit(v, 1) == Bit(v', 1) && Bit(v, 2) == Bit(v', 2)
    ensures v == v'
  {
    hide Bit, Number3;
    Number3Of(v);
    Number3Of(v');
    Mod8(v, 0, v);
    Mod8(v', 0, v');
  }

  lemma TileXInjective(s: Surface, mx: nat, my: nat, bank: nat, bank': nat)
    requires s.banks in {4, 8} && bank < s.banks && bank' < s.banks
    requires TileX(s, mx, my, bank) == TileX(s, mx, my, bank')
    ensures bank == bank'
  {
    hide Bit, Xor, Flip;
    SmallBits(bank);
    SmallBits(bank');
    var m0 := Bit(mx, 0);
    var n0, n1, n2 := Bit(my, 0), Bit(my, 1), Bit(my, 2);
    var b0, b1, b2 := Bit(bank, 0), Bit(bank, 1), Bit(bank, 2);
    var a0, a1, a2 := Bit(bank', 0), Bit(bank', 1), Bit(bank', 2);
    if s.banks == 4 {
      XorInjective(b0, a0, n1);
      XorInjective(Flip(s.bankOp, b1, m0), Flip(s.bankOp, a1, m0), n0);
      FlipInjective(s.bankOp, b1, a1, m0);
    } else {
      XorInjective(b0, a0, n2);
      XorInjective(Xor(b1, n2), Xor(a1, n2), n1);
      XorInjective(b1, a1, n2);
      XorInjective(Flip(s.bankOp, b2, m0), Flip(s.bankOp, a2, m0), n0);
      FlipInjective(s.bankOp, b2, a2, m0);
    }
    SameBits(bank, bank');
  }

  lemma TileYInjective(s: Surface, mx: nat, t0: int, t1: int, t2: int, channel: nat, channel': nat)
    requires AreBits(t0, t1, t2) && s.channels in {2, 4, 8} && channel < s.channels && channel' < s.channels
    requires TileY(s, mx, t0, t1, t2, channel) == TileY(s, mx, t0, t1, t2, channel')
    ensures channel == channel'
  {
    hide Bit, Xor;
    SmallBits(channel);
    SmallBits(channel');
    var c0, c1, c2 := Bit(channel, 0), Bit(channel, 1), Bit(channel, 2);
    var d0, d1, d2 := Bit(channel', 0), Bit(channel', 1), Bit(channel', 2);
    var x5 := if s.banks == 4 then Bit(mx, 0) else t2;
    if s.channels == 2 {
      XorInjective(c0, d0, t0);
    } else if s.channels == 4 {
      XorInjective(c0, d0, t1);
      XorInjective(c1, d1, t0);
    } else {
      XorInjective(c0, d0, x5);
      XorInjective(Xor(c1, x5), Xor(d1, x5), t1);
      XorInjective(c1, d1, x5);
      XorInjective(c2, d2, t0);
    }
    SameBits(channel, channel');
  }

  lemma Number3Injective(a: int, b: int, c: int, a': int, b': int, c': int)
    requires AreBits(a, b, c) && AreBits(a', b', c') && Number3(a, b, c) == Number3(a', b', c')
    ensures a == a' && b == b' && c == c'
  {}

  /** The tile found for a bank and channel has that bank and channel. */
  lemma MixOfTile(s: Surface, x: nat, y: nat, mx: nat, my: nat, bank: nat, channel: nat)
    requires s.channels in {2, 4, 8} && s.banks in {4, 8} && bank < s.banks && channel < s.channels
    requires var t := TileAt(s, mx, my, bank, channel);
      0 <= t.0 && 0 <= t.1 && Located(s, x, y, mx, my, t.0, t.1)
    ensures Bank(s.banks, s.bankOp, Log2(s.channels), x, y) == bank && Channel(s.channels, x, y) == channel
  {
    hide Bit, Log2, TileX, TileY, Bank, Channel, Number3;
    var t := TileAt(s, mx, my, bank, channel);
    TileOfMix(s, x, y, mx, my, t.0, t.1);
    var bank', channel' := Bank(s.banks, s.bankOp, Log2(s.channels), x, y), Channel(s.channels, x, y);
    var p, p' := TileX(s, mx, my, bank), TileX(s, mx, my, bank');
    Number3Injective(p.0, p.1, p.2, p'.0, p'.1, p'.2);
    TileXInjective(s, mx, my, bank, bank');
    var q, q' := TileY(s, mx, p.0, p.1, p.2, channel), TileY(s, mx, p.0, p.1, p.2, channel');
    Number3Injective(q.0, q.1, q.2, q'.0, q'.1, q'.2);
    TileYInjective(s, mx, p.0, p.1, p.2, channel, channel');
  }

  // ---------------------------------------------------------------- offsets

  /** The offset within one bank and channel: whole macro tiles, then the pixel. */
  function Total(s: Surface, macro: int, pixel: int): int {
    macro * s.TileBytes() + pixel * s.cpp
  }

  /** Group number and place in the group, spread over channels and banks. */
  function Interleave(s: Surface, total: int, bank: int, channel: int): int
    requires s.groupBytes > 0
  {
    var g := s.groupBytes;
    g * ((total / g) * (s.banks * s.channels) + bank * s.channels + channel) + total % g
  }

  lemma Configuration(s: Surface)
    requires s.channels in {2, 4, 8} && s.banks in {4, 8}
    ensures Pow2(Log2(s.channels)) == s.channels && Pow2(Log2(s.channels) + Log2(s.banks)) == s.channels * s.banks
  {
    Log2Small();
    assert Pow2(3) == 8;
    Pow2Add(Log2(s.channels), Log2(s.banks));
  }

  lemma Quotients(cpp: int, n: int, w: nat, pitch: int)
    requires cpp > 0 && n in {4, 8} && pitch == cpp * (8 * n * w)
    ensures ((pitch / cpp) / 8) / n == w
  {
    DivModIs(pitch, cpp, 8 * n * w, 0);
  }

  lemma Spread(g: int, total: int, c: int, b: int, bank: int, channel: int)
    requires g > 0
    ensures bank * (g * c) + channel * g + total % g + (total - total % g) * (c * b)
      == g * ((total / g) * (b * c) + bank * c + channel) + total % g
  {
    var hi := total / g;
    assert total - total % g == g * hi;
    assert (g * hi) * (c * b) == g * (hi * (b * c));
    assert bank * (g * c) == g * (bank * c);
  }

  lemma MacroShare(macro: int, b: int, c: int, t: int)
    requires b > 0 && c > 0
    ensures c * b > 0 && (macro * (b * c * t)) / (c * b) == macro * t
  {
    MulPositive(c, b);
    assert macro * (b * c * t) == (c * b) * (macro * t);
    DivModIs(macro * (b * c * t), c * b, macro * t, 0);
  }

  /** The offset in terms of macro tile, pixel, bank and channel. */
  lemma OffsetIsInterleave(s: Surface, w: nat, h: nat, x: nat, y: nat)
    requires s.Macro(w, h)
    ensures var macro := ((y / 8) / s.channels) * w + (x / 8) / s.banks;
      Offset2D(s, x, y) == Interleave(s, Total(s, macro, PixelNumber(x, y, s.cpp)),
                                      Bank(s.banks, s.bankOp, Log2(s.channels), x, y), Channel(s.channels, x, y))
  {
    hide Log2, Bank, Channel, PixelNumber, Pow2;
    var g, c, b, t := s.groupBytes, s.channels, s.banks, s.TileBytes();
    var macro := ((y / 8) / c) * w + (x / 8) / b;
    Quotients(s.cpp, b, w, s.pitch);
    Configuration(s);
    Pow2Add(Log2(g), Log2(c));
    MacroShare(macro, b, c, t);
    var total := Total(s, macro, PixelNumber(x, y, s.cpp));
    Spread(g, total, c, b, Bank(b, s.bankOp, Log2(c), x, y), Channel(c, x, y));
    UnfoldOffset(s, x, y, w, macro, total);
  }

  lemma UnfoldOffset(s: Surface, x: nat, y: nat, w: nat, macro: int, total: int)
    requires s.groupBytes > 0 && s.channels > 0 && s.banks > 0 && s.cpp > 0 && s.pitch >= 0
    requires ((s.pitch / s.cpp) / 8) / s.banks == w && macro == ((y / 8) / s.channels) * w + (x / 8) / s.banks
    requires total == (macro * (s.banks * s.channels * s.TileBytes())) / Pow2(Log2(s.channels) + Log2(s.banks))
                      + PixelNumber(x, y, s.cpp) * s.cpp
    ensures Offset2D(s, x, y) ==
      Bank(s.banks, s.bankOp, Log2(s.channels), x, y) * Pow2(Log2(s.groupBytes) + Log2(s.channels))
      + Channel(s.channels, x, y) * Pow2(Log2(s.groupBytes))
      + total % Pow2(Log2(s.groupBytes))
      + (total - total % Pow2(Log2(s.groupBytes))) * Pow2(Log2(s.channels) + Log2(s.banks))
  {
    hide Log2, Bank, Channel, PixelNumber, Pow2;
  }

  // ---------------------------------------------------------------- the inverse map

  lemma Quotient(n: nat, d: int)
    requires d > 0
    ensures n / d >= 0 && 0 <= n % d < d && n == d * (n / d) + n % d
  {}

  /** Undoes `Interleave`: the total offset, the bank and the channel. */
  function Separate(s: Surface, o: nat): (r: (nat, nat, nat))
    requires s.groupBytes > 0 && s.banks > 0 && s.channels > 0
    ensures r.1 < s.banks && r.2 < s.channels
  {
    Quotient(o, s.groupBytes);
    var q: nat := o / s.groupBytes;
    Quotient(q, s.channels);
    var p: nat := q / s.channels;
    Quotient(p, s.banks);
    var hi: nat := p / s.banks;
    MulMonotone(0, hi, s.groupBytes);
    (hi * s.groupBytes + o % s.groupBytes, p % s.banks, q % s.channels)
  }

  lemma SeparateInterleave(s: Surface, total: nat, bank: nat, channel: nat)
    requires s.groupBytes > 0 && bank < s.banks && channel < s.channels
    ensures var o := Interleave(s, total, bank, channel); o >= 0 && Separate(s, o) == (total, bank, channel)
  {
    var g, b, c := s.groupBytes, s.banks, s.channels;
    var hi := total / g;
    InterleaveNonNegative(s, total, bank, channel);
    var q := hi * (b * c) + bank * c + channel;
    DivModIs(g * q + total % g, g, q, total % g);
    assert q == c * (hi * b + bank) + channel;
    DivModIs(q, c, hi * b + bank, channel);
    assert hi * b + bank == b * hi + bank;
    DivModIs(hi * b + bank, b, hi, bank);
    assert hi * g + total % g == total;
  }

  lemma InterleaveNonNegative(s: Surface, total: nat, bank: nat, channel: nat)
    requires s.groupBytes > 0 && s.banks > 0 && s.channels > 0
    ensures Interleave(s, total, bank, channel) >= 0
  {
    var g, b, c := s.groupBytes, s.banks, s.channels;
    Quotient(total, g);
    MulMonotone(0, b, c);
    MulMonotone(0, total / g, b * c);
    MulMonotone(0, bank, c);
    var q := (total / g) * (b * c) + bank * c + channel;
    MulMonotone(0, q, g);
    assert g * q == q * g;
  }

  /** A number from its remainders modulo `c` and then `b`. */
  lemma Rebuild(q: int, c: int, b: int)
    requires c > 0 && b > 0
    ensures q == ((q / c) / b) * (b * c) + ((q / c) % b) * c + q % c
  {
    var r := q / c;
    var hi := r / b;
    assert q == c * r + q % c && r == b * hi + r % b;
    assert c * (b * hi) == hi * (b * c);
    assert c * r == c * (b * hi) + c * (r % b);
  }

  lemma InterleaveSeparate(s: Surface, o: nat)
    requires s.groupBytes > 0 && s.banks > 0 && s.channels > 0
    ensures var (total, bank, channel) := Separate(s, o);
      total % s.groupBytes == o % s.groupBytes && Interleave(s, total, bank, channel) == o
  {
    var g := s.groupBytes;
    var q, lo := o / g, o % g;
    var hi := (q / s.channels) / s.banks;
    Rebuild(q, s.channels, s.banks);
    assert hi * g == g * hi;
    DivModIs(hi * g + lo, g, hi, lo);
  }

  /** The macro tile and the pixel at a total offset. */
  function Locate(s: Surface, w: nat, total: nat): (r: (nat, nat, nat))
    requires s.cpp > 0 && w > 0
    ensures r.0 < w && r.2 < 64
  {
    Quotient(total, s.TileBytes());
    var macro: nat := total / s.TileBytes();
    Quotient(macro, w);
    Quotient(total % s.TileBytes(), s.cpp);
    PixelSmall(total % s.TileBytes(), s.cpp);
    (macro % w, macro / w, (total % s.TileBytes()) / s.cpp)
  }

  lemma PixelSmall(rest: nat, cpp: int)
    requires cpp > 0 && rest < 64 * cpp
    ensures rest / cpp < 64
  {
    Quotient(rest, cpp);
    var q := rest / cpp;
    if q >= 64 {
      MulMonotone(64, q, cpp);
    }
  }

  function Compose(n: int, m: int, t: int, p: int): int {
    8 * (n * m + t) + p
  }

  /** The element whose bytes start at offset `o`. */
  function ElementAt(s: Surface, w: nat, o: nat): (e: (int, int))
    requires s.groupBytes > 0 && s.banks > 0 && s.channels > 0 && s.cpp > 0 && w > 0
  {
    var (total, bank, channel) := Separate(s, o);
    var (mx, my, pixel) := Locate(s, w, total);
    var (tx, ty) := TileAt(s, mx, my, bank, channel);
    var (px, py) := PixelAt(pixel, s.cpp);
    (Compose(s.banks, mx, tx, px), Compose(s.channels, my, ty, py))
  }

  function Size(s: Surface): int {
    s.pitch * s.height
  }

  /** A coordinate: its macro tile, its tile in that and its place in the tile. */
  lemma Decompose(v: nat, n: int, w: nat) returns (m: nat, t: nat)
    requires n in {2, 4, 8} && v < 8 * n * w
    ensures v / 8 == n * m + t && t < n && m < w && m == (v / 8) / n && v == Compose(n, m, t, v % 8)
  {
    m, t := (v / 8) / n, (v / 8) % n;
    if m >= w {
      MulMonotone(w, m, n);
    }
  }

  lemma MacroInRange(mx: nat, my: nat, w: nat, h: nat)
    requires mx < w && my < h
    ensures 0 <= my * w + mx < w * h
  {
    MulMonotone(0, my, w);
    MulMonotone(my + 1, h, w);
    assert (my + 1) * w == my * w + w && h * w == w * h;
  }

  /** What an element's offset is made of. */
  lemma OffsetParts(s: Surface, w: nat, h: nat, x: nat, y: nat, mx: nat, my: nat, tx: nat, ty: nat)
    returns (total: nat, bank: nat, channel: nat)
    requires s.Macro(w, h) && Located(s, x, y, mx, my, tx, ty) && mx < w && my < h
    requires mx == (x / 8) / s.banks && my == (y / 8) / s.channels
    ensures 0 <= PixelNumber(x, y, s.cpp) < 64 && my * w + mx >= 0
    ensures total == Total(s, my * w + mx, PixelNumber(x, y, s.cpp))
    ensures bank < s.banks && channel < s.channels && TileAt(s, mx, my, bank, channel) == (tx, ty)
    ensures Offset2D(s, x, y) == Interleave(s, total, bank, channel)
  {
    hide PixelNumber, PixelAt, Bank, Channel, Log2, Interleave, TileAt, Offset2D;
    TileOfMix(s, x, y, mx, my, tx, ty);
    bank, channel := Bank(s.banks, s.bankOp, Log2(s.channels), x, y), Channel(s.channels, x, y);
    PixelOfNumber(x, y, s.cpp);
    OffsetIsInterleave(s, w, h, x, y);
    MacroInRange(mx, my, w, h);
    TotalNatural(s, my * w + mx, PixelNumber(x, y, s.cpp));
    total := Total(s, my * w + mx, PixelNumber(x, y, s.cpp));
  }

  lemma TotalNatural(s: Surface, macro: nat, pixel: nat)
    requires s.cpp > 0
    ensures Total(s, macro, pixel) >= 0
  {
    MulMonotone(0, macro, s.TileBytes());
    MulMonotone(0, pixel, s.cpp);
  }

  /** A total offset taken apart again. */
  lemma LocateTotal(s: Surface, w: nat, mx: nat, my: nat, pixel: nat)
    requires s.cpp > 0 && mx < w && pixel < 64 && my * w + mx >= 0
    ensures var total := Total(s, my * w + mx, pixel); total >= 0 && Locate(s, w, total) == (mx, my, pixel)
  {
    var macro := my * w + mx;
    TotalNatural(s, macro, pixel);
    MulMonotone(0, pixel, s.cpp);
    MulMonotone(pixel, 63, s.cpp);
    assert macro * s.TileBytes() == s.TileBytes() * macro && pixel * s.cpp == s.cpp * pixel;
    DivModIs(Total(s, macro, pixel), s.TileBytes(), macro, pixel * s.cpp);
    DivModIs(pixel * s.cpp, s.cpp, pixel, 0);
    assert my * w == w * my;
    DivModIs(macro, w, my, mx);
  }

  /** Tiling is injective: the element can be read back from its offset. */
  lemma ElementOfOffset(s: Surface, w: nat, h: nat, x: nat, y: nat)
    requires s.Macro(w, h) && w > 0 && s.Has(w, h, x, y)
    ensures Offset2D(s, x, y) >= 0 && ElementAt(s, w, Offset2D(s, x, y)) == (x, y)
  {
    hide PixelNumber, PixelAt, Bank, Channel, Log2, Interleave, Separate, Locate, TileAt, Offset2D, Total, Compose;
    var mx, tx := Decompose(x, s.banks, w);
    var my, ty := Decompose(y, s.channels, h);
    var total, bank, channel := OffsetParts(s, w, h, x, y, mx, my, tx, ty);
    SeparateInterleave(s, total, bank, channel);
    LocateTotal(s, w, mx, my, PixelNumber(x, y, s.cpp));
    PixelOfNumber(x, y, s.cpp);
  }

  // ---------------------------------------------------------------- filling the surface

  /** Taking multiples of a multiple of `d` away leaves divisibility by `d` alone. */
  lemma SameMultiple(d: int, n: int, a: int, q: int)
    requires d > 0 && a % d == 0
    ensures (n - a * q) % d == n % d
  {
    var k := a / d;
    assert a == d * k;
    assert a * q == d * (k * q);
    assert d * (n / d - k * q) == d * (n / d) - d * (k * q);
    DivModIs(n - a * q, d, n / d - k * q, n % d);
  }

  lemma RemainderMultiple(d: int, n: nat, a: int)
    requires d > 0 && a > 0 && a % d == 0 && n % d == 0
    ensures (n % a) % d == 0
  {
    SameMultiple(d, n, a, n / a);
    assert n % a == n - a * (n / a);
  }

  lemma MultipleGap(d: int, a: int, b: int)
    requires d > 0 && a % d == 0 && b % d == 0 && a < b
    ensures a + d <= b
  {
    var k := b / d - a / d;
    assert b - a == d * k;
    if k > 0 {
      MulPositive(d, k);
    } else {
      MulMonotone(k, 0, d);
    }
  }

  lemma Regroup(cpp: int, b: int, w: int, c: int, h: int)
    ensures (cpp * (8 * b * w)) * (8 * c * h) == (64 * cpp) * ((w * h) * (b * c))
  {
    assert (cpp * (8 * b * w)) * (8 * c * h) == cpp * ((8 * b * w) * (8 * c * h));
    assert (8 * b * w) * (8 * c * h) == 64 * ((b * w) * (c * h));
    assert (b * w) * (c * h) == (w * h) * (b * c);
    assert cpp * (64 * ((w * h) * (b * c))) == (64 * cpp) * ((w * h) * (b * c));
  }

  lemma SizeIs(s: Surface, w: nat, h: nat)
    requires s.Macro(w, h)
    ensures Size(s) == s.TileBytes() * ((w * h) * (s.banks * s.channels))
  {
    hide Log2, Pow2;
    Regroup(s.cpp, s.banks, w, s.channels, h);
  }

  lemma BankChannelSmall(bank: nat, channel: nat, banks: int, channels: int)
    requires bank < banks && channel < channels
    ensures 0 <= bank * channels && bank * channels + channel < banks * channels
  {
    MulMonotone(0, bank, channels);
    MulMonotone(bank + 1, banks, channels);
    assert (bank + 1) * channels == bank * channels + channels;
  }

  /** A digit string: `hi * m + lo` is below `n * m` exactly when `hi` is below `n`. */
  lemma DigitsBelow(hi: int, lo: int, m: int, n: int)
    requires 0 <= lo < m
    ensures hi * m + lo < n * m <==> hi < n
  {
    if hi < n {
      MulMonotone(hi + 1, n, m);
      assert (hi + 1) * m == hi * m + m;
    } else {
      MulMonotone(n, hi, m);
    }
  }

  /** Whole tiles come to `n` tiles exactly when they come to `n` tiles' worth of groups. */
  lemma GroupsOfTiles(total: nat, n: nat, t: int, g: int)
    requires t > 0 && g > 0 && t % g == 0
    ensures total / g < n * (t / g) <==> total / t < n
  {
    var r := t / g;
    assert t == g * r;
    assert total == t * (total / t) + total % t && total == g * (total / g) + total % g;
    DigitsBelow(total / t, total % t, t, n);
    DigitsBelow(total / g, total % g, g, n * r);
    assert (total / t) * t == t * (total / t) && (total / g) * g == g * (total / g);
    assert n * t == (n * r) * g;
  }

  /** An interleaved offset lies in the surface exactly when its tile does. */
  lemma InterleaveInside(s: Surface, w: nat, h: nat, total: nat, bank: nat, channel: nat)
    requires s.Macro(w, h) && bank < s.banks && channel < s.channels
    ensures Interleave(s, total, bank, channel) < Size(s) <==> total / s.TileBytes() < w * h
  {
    hide Log2, Pow2, Size;
    var g, n, m := s.groupBytes, (w * h) * (s.TileBytes() / s.groupBytes), s.banks * s.channels;
    var hi := total / g;
    SizeIs(s, w, h);
    BankChannelSmall(bank, channel, s.banks, s.channels);
    GroupsOfTiles(total, w * h, s.TileBytes(), g);
    DigitsBelow(hi, bank * s.channels + channel, m, n);
    DigitsBelow(hi * m + bank * s.channels + channel, total % g, g, n * m);
    SizeInGroups(s.TileBytes(), g, w * h, m);
    assert g * (hi * m + bank * s.channels + channel) == (hi * m + bank * s.channels + channel) * g;
  }

  lemma SizeInGroups(t: int, g: int, k: int, m: int)
    requires g > 0 && t % g == 0
    ensures t * (k * m) == ((k * (t / g)) * m) * g
  {
    var r := t / g;
    assert t == g * r;
    assert (g * r) * (k * m) == ((k * r) * m) * g;
  }

  /** An element's offset is a multiple of its size. */
  lemma InterleaveMultiple(s: Surface, total: nat, bank: nat, channel: nat)
    requires s.cpp > 0 && s.groupBytes > 0 && s.groupBytes % s.cpp == 0
    ensures Interleave(s, total, bank, channel) % s.cpp == total % s.cpp
  {
    var g := s.groupBytes;
    var q := (total / g) * (s.banks * s.channels) + bank * s.channels + channel;
    SameMultiple(s.cpp, total, g, total / g);
    assert total % g == total - g * (total / g);
    SameMultiple(s.cpp, g * q + total % g, g, q);
  }

  lemma TotalMultiple(s: Surface, macro: int, pixel: int)
    requires s.cpp > 0
    ensures Total(s, macro, pixel) % s.cpp == 0
  {
    var k := macro * 64 + pixel;
    assert Total(s, macro, pixel) == s.cpp * k;
    DivModIs(s.cpp * k, s.cpp, k, 0);
  }

  lemma SizeMultiple(s: Surface, w: nat, h: nat)
    requires s.Macro(w, h)
    ensures Size(s) % s.cpp == 0
  {
    hide Log2, Pow2;
    var k := (8 * s.banks * w) * s.height;
    assert Size(s) == s.cpp * k;
    DivModIs(s.cpp * k, s.cpp, k, 0);
  }

  /** Every element lies inside the surface, at a multiple of its size. */
  lemma OffsetInside(s: Surface, w: nat, h: nat, x: nat, y: nat)
    requires s.Macro(w, h) && w > 0 && s.Has(w, h, x, y) && s.groupBytes % s.cpp == 0
    ensures var o := Offset2D(s, x, y); 0 <= o && o % s.cpp == 0 && o + s.cpp <= Size(s)
  {
    hide PixelNumber, Bank, Channel, Log2, Pow2, Offset2D, Size, Interleave, TileAt, Total, Compose, Separate, Locate;
    var mx, tx := Decompose(x, s.banks, w);
    var my, ty := Decompose(y, s.channels, h);
    var total, bank, channel := OffsetParts(s, w, h, x, y, mx, my, tx, ty);
    TotalMultiple(s, my * w + mx, PixelNumber(x, y, s.cpp));
    InterleaveMultiple(s, total, bank, channel);
    SeparateInterleave(s, total, bank, channel);
    TotalInside(s, w, h, mx, my, PixelNumber(x, y, s.cpp));
    InterleaveInside(s, w, h, total, bank, channel);
    SizeMultiple(s, w, h);
    MultipleGap(s.cpp, Offset2D(s, x, y), Size(s));
  }

  lemma TotalInside(s: Surface, w: nat, h: nat, mx: nat, my: nat, pixel: nat)
    requires s.cpp > 0 && mx < w && my < h && pixel < 64
    ensures Total(s, my * w + mx, pixel) / s.TileBytes() == my * w + mx < w * h
  {
    MacroInRange(mx, my, w, h);
    MulMonotone(0, pixel, s.cpp);
    MulMonotone(pixel, 63, s.cpp);
    var macro := my * w + mx;
    assert macro * s.TileBytes() == s.TileBytes() * macro;
    DivModIs(Total(s, macro, pixel), s.TileBytes(), macro, pixel * s.cpp);
  }

  /** Every value the address computation of an element goes through lies between 0 and `top`. */
  predicate StepsWithin(s: Surface, w: nat, x: nat, y: nat, top: int)
    requires s.groupBytes > 0 && s.channels > 0 && s.banks > 0 && s.cpp > 0 && s.pitch >= 0
  {
    var macro := MacroIndex(s, w, x, y);
    && 0 <= macro <= top && 0 <= MacroOffset(s, macro) <= top
    && TermsWithin(s, x, y, Total(s, macro, PixelNumber(x, y, s.cpp)), top)
  }

  function MacroIndex(s: Surface, w: nat, x: nat, y: nat): int
    requires s.channels > 0 && s.banks > 0
  {
    ((y / 8) / s.channels) * w + (x / 8) / s.banks
  }

  function MacroOffset(s: Surface, macro: int): int {
    macro * (s.banks * s.channels * s.TileBytes())
  }

  predicate TermsWithin(s: Surface, x: nat, y: nat, total: int, top: int)
    requires s.groupBytes > 0 && s.channels > 0 && s.banks > 0 && s.cpp > 0 && s.pitch >= 0
  {
    && 0 <= total <= top && 0 <= Offset2D(s, x, y) <= top
    && 0 <= (total - total % Pow2(Log2(s.groupBytes))) * Pow2(Log2(s.channels) + Log2(s.banks)) <= top
    && 0 <= Bank(s.banks, s.bankOp, Log2(s.channels), x, y) * Pow2(Log2(s.groupBytes) + Log2(s.channels)) <= top
    && 0 <= Channel(s.channels, x, y) * Pow2(Log2(s.groupBytes)) <= top
  }

  /** No step of the address computation leaves the surface, so that none wraps below 2 GiB. */
  lemma StepsInSurface(s: Surface, w: nat, h: nat, x: nat, y: nat)
    requires s.Macro(w, h) && w > 0 && s.Has(w, h, x, y) && s.groupBytes % s.cpp == 0
    ensures w * h <= Size(s) && StepsWithin(s, w, x, y, Size(s))
  {
    hide PixelNumber, Bank, Channel, Log2, Pow2, Offset2D, Size, Total, TermsWithin, MacroIndex, MacroOffset;
    MacroOf(s, w, h, x, y);
    var macro: nat := MacroIndex(s, w, x, y);
    MacroBytes(s, w, h, macro);
    PixelOfNumber(x, y, s.cpp);
    TotalNatural(s, macro, PixelNumber(x, y, s.cpp));
    var total: nat := Total(s, macro, PixelNumber(x, y, s.cpp));
    OffsetInside(s, w, h, x, y);
    TermsOfOffset(s, w, h, x, y, macro, total, Size(s));
  }

  /** The macro tile of an element is one of the surface's. */
  lemma MacroOf(s: Surface, w: nat, h: nat, x: nat, y: nat)
    requires s.Macro(w, h) && s.Has(w, h, x, y)
    ensures s.cpp > 0 && s.channels > 0 && s.banks > 0 && s.groupBytes > 0 && s.pitch >= 0
    ensures 0 <= MacroIndex(s, w, x, y) < w * h
  {
    hide Log2, Pow2, Compose;
    var mx, tx := Decompose(x, s.banks, w);
    var my, ty := Decompose(y, s.channels, h);
    MacroInRange(mx, my, w, h);
  }

  /** The macro tiles before one are fewer bytes than the surface has. */
  lemma MacroBytes(s: Surface, w: nat, h: nat, macro: nat)
    requires s.Macro(w, h) && macro < w * h
    ensures 0 <= MacroOffset(s, macro) <= Size(s) && w * h <= Size(s)
  {
    hide Log2, Pow2, Size;
    SizeIs(s, w, h);
    BytesBefore(macro, w * h, s.banks, s.channels, s.TileBytes());
  }

  lemma BytesBefore(macro: nat, n: nat, b: int, c: int, t: int)
    requires macro < n && b > 0 && c > 0 && t > 0
    ensures 0 <= macro * (b * c * t) <= t * (n * (b * c)) && n <= t * (n * (b * c))
  {
    MulPositive(b, c);
    MulPositive(b * c, t);
    var bytes := b * c * t;
    MulMonotone(0, macro, bytes);
    MulMonotone(macro, n, bytes);
    MulMonotone(1, bytes, n);
    MulOrder(t, n, b * c);
  }

  lemma MulOrder(t: int, n: int, k: int)
    ensures t * (n * k) == n * (k * t) == (k * t) * n
  {}

  /** The terms of an offset are not negative and no larger than it, and neither is the total offset. */
  lemma TermsOfOffset(s: Surface, w: nat, h: nat, x: nat, y: nat, macro: nat, total: nat, top: int)
    requires s.Macro(w, h) && macro == MacroIndex(s, w, x, y)
    requires total == Total(s, macro, PixelNumber(x, y, s.cpp))
    requires Offset2D(s, x, y) <= top
    ensures TermsWithin(s, x, y, total, top)
  {
    hide PixelNumber, Bank, Channel, Log2, Pow2, Offset2D;
    var low, spread := total % Pow2(Log2(s.groupBytes)), Pow2(Log2(s.channels) + Log2(s.banks));
    Quotients(s.cpp, s.banks, w, s.pitch);
    MacroShare(macro, s.banks, s.channels, s.TileBytes());
    Configuration(s);
    UnfoldOffset(s, x, y, w, macro, total);
    Quotient(total, Pow2(Log2(s.groupBytes)));
    MulMonotone(0, total / Pow2(Log2(s.groupBytes)), Pow2(Log2(s.groupBytes)));
    MulMonotone(0, total - low, spread);
    MulMonotone(1, spread, total - low);
    NotNegative(s, x, y);
    MulMonotone(0, Bank(s.banks, s.bankOp, Log2(s.channels), x, y), Pow2(Log2(s.groupBytes) + Log2(s.channels)));
    MulMonotone(0, Channel(s.channels, x, y), Pow2(Log2(s.groupBytes)));
  }

  lemma NotNegative(s: Surface, x: nat, y: nat)
    requires s.channels > 0
    ensures Bank(s.banks, s.bankOp, Log2(s.channels), x, y) >= 0 && Channel(s.channels, x, y) >= 0
  {
    hide Bit, Log2;
  }

  /** A multiple of the element size is a total offset. */
  lemma TotalOfLocate(s: Surface, w: nat, h: nat, total: nat)
    requires s.cpp > 0 && w > 0 && total % s.cpp == 0 && total / s.TileBytes() < w * h
    ensures var (mx, my, pixel) := Locate(s, w, total); my < h && total == Total(s, my * w + mx, pixel)
  {
    var t, macro := s.TileBytes(), total / s.TileBytes();
    DivModIs(t, s.cpp, 64, 0);
    RemainderMultiple(s.cpp, total, t);
    var rest := total % t;
    assert rest == s.cpp * (rest / s.cpp) == (rest / s.cpp) * s.cpp;
    assert total == t * macro + rest == macro * t + rest;
    assert macro == w * (macro / w) + macro % w && w * (macro / w) == (macro / w) * w;
    if macro / w >= h {
      MulMonotone(h, macro / w, w);
    }
  }

  lemma ComposeRange(n: int, m: nat, t: nat, p: nat, w: nat)
    requires n in {2, 4, 8} && t < n && p < 8 && m < w
    ensures var v := Compose(n, m, t, p);
      && 0 <= v < 8 * n * w && v / 8 == n * m + t && v % 8 == p && (v / 8) / n == m
  {
    var v := Compose(n, m, t, p);
    MulMonotone(0, m, n);
    MulMonotone(m + 1, w, n);
    assert (m + 1) * n == n * m + n && m * n == n * m && w * n == n * w;
    DivModIs(v, 8, n * m + t, p);
    DivModIs(n * m + t, n, m, t);
  }

  /** Only the low three bits of a coordinate select the pixel. */
  lemma PixelLowBits(x: nat, y: nat, px: nat, py: nat, e: int)
    requires x % 8 == px && y % 8 == py
    ensures PixelNumber(x, y, e) == PixelNumber(px, py, e)
  {
    hide Bit, Number6;
    LowBits(x, px);
    LowBits(y, py);
  }

  lemma LowBits(v: nat, p: nat)
    requires p == v % 8
    ensures Bit(v, 0) == Bit(p, 0) && Bit(v, 1) == Bit(p, 1) && Bit(v, 2) == Bit(p, 2)
  {
    hide Bit;
    TileBits8(v / 8, p);
    assert v == 8 * (v / 8) + p;
  }

  /** Tiling is onto: every multiple of the element size inside the surface is some element's offset. */
  lemma OffsetOfElement(s: Surface, w: nat, h: nat, o: nat)
    requires s.Macro(w, h) && w > 0 && o < Size(s) && o % s.cpp == 0 && s.groupBytes % s.cpp == 0
    ensures var (x, y) := ElementAt(s, w, o); s.Has(w, h, x, y) && Offset2D(s, x, y) == o
  {
    hide PixelNumber, PixelAt, Bank, Channel, Log2, Pow2, Interleave, Separate, Locate, TileAt, Offset2D, Size, Total, Compose;
    InterleaveSeparate(s, o);
    var (total, bank, channel) := Separate(s, o);
    InterleaveInside(s, w, h, total, bank, channel);
    InterleaveMultiple(s, total, bank, channel);
    TotalOfLocate(s, w, h, total);
    var (mx, my, pixel) := Locate(s, w, total);
    TileAtRange(s, mx, my, bank, channel);
    NumberOfPixel(pixel, s.cpp);
    var (tx, ty) := TileAt(s, mx, my, bank, channel);
    var (px, py) := PixelAt(pixel, s.cpp);
    ComposeRange(s.banks, mx, tx, px, w);
    ComposeRange(s.channels, my, ty, py, h);
    var x, y := Compose(s.banks, mx, tx, px), Compose(s.channels, my, ty, py);
    MixOfTile(s, x, y, mx, my, bank, channel);
    PixelLowBits(x, y, px, py, s.cpp);
    OffsetIsInterleave(s, w, h, x, y);
  }

  // ---------------------------------------------------------------- the bijection

  /** No two elements of the surface share a byte. */
  ghost predicate Disjoint(s: Surface, w: nat, h: nat)
    requires s.Macro(w, h)
  {
    forall x, y, x', y' :: s.Has(w, h, x, y) && s.Has(w, h, x', y') && (x, y) != (x', y') ==>
      Offset2D(s, x, y) + s.cpp <= Offset2D(s, x', y') || Offset2D(s, x', y') + s.cpp <= Offset2D(s, x, y)
  }

  ghost predicate InSomeElement(s: Surface, w: nat, h: nat, b: int)
    requires s.Macro(w, h)
  {
    exists x, y :: s.Has(w, h, x, y) && Offset2D(s, x, y) <= b < Offset2D(s, x, y) + s.cpp
  }

  /** Every element lies in the surface and every byte of the surface belongs to an element. */
  ghost predicate Filled(s: Surface, w: nat, h: nat)
    requires s.Macro(w, h)
  {
    && (forall x, y :: s.Has(w, h, x, y) ==> 0 <= Offset2D(s, x, y) && Offset2D(s, x, y) + s.cpp <= Size(s))
    && (forall b :: 0 <= b < Size(s) ==> InSomeElement(s, w, h, b))
  }

  lemma {:induction false} PowersDivide(j: nat, k: nat)
    requires j <= k
    ensures Pow2(k) % Pow2(j) == 0
  {
    Pow2Add(j, k - j);
    DivModIs(Pow2(k), Pow2(j), Pow2(k - j), 0);
  }

  lemma {:induction false} PowersOrdered(j: nat, k: nat)
    requires j > k
    ensures Pow2(j) >= 2 * Pow2(k)
  {
    Pow2Add(k + 1, j - k - 1);
    MulMonotone(1, Pow2(j - k - 1), Pow2(k + 1));
    assert Pow2(k + 1) * Pow2(j - k - 1) == Pow2(j - k - 1) * Pow2(k + 1);
  }

  /** A group at least as large as an element holds whole elements. */
  lemma GroupHoldsElements(s: Surface)
    requires s.Valid() && s.cpp <= s.groupBytes
    ensures s.groupBytes % s.cpp == 0
  {
    var e := if s.cpp == 1 then 0 else if s.cpp == 2 then 1 else if s.cpp == 4 then 2 else if s.cpp == 8 then 3 else 4;
    assert Pow2(0) == 1 && Pow2(1) == 2 && Pow2(2) == 4;
    assert Pow2(3) == 8;
    assert Pow2(4) == 16;
    if e > Log2(s.groupBytes) {
      PowersOrdered(e, Log2(s.groupBytes));
    }
    PowersDivide(e, Log2(s.groupBytes));
  }

  lemma DistinctOffsets(s: Surface, w: nat, h: nat, x: int, y: int, x': int, y': int)
    requires s.Macro(w, h) && w > 0 && s.Has(w, h, x, y) && s.Has(w, h, x', y') && (x, y) != (x', y')
    requires s.groupBytes % s.cpp == 0
    ensures Offset2D(s, x, y) + s.cpp <= Offset2D(s, x', y') || Offset2D(s, x', y') + s.cpp <= Offset2D(s, x, y)
  {
    hide Offset2D, ElementAt, Log2, Pow2, Size;
    ElementOfOffset(s, w, h, x, y);
    ElementOfOffset(s, w, h, x', y');
    OffsetInside(s, w, h, x, y);
    OffsetInside(s, w, h, x', y');
    if Offset2D(s, x, y) < Offset2D(s, x', y') {
      MultipleGap(s.cpp, Offset2D(s, x, y), Offset2D(s, x', y'));
    } else {
      MultipleGap(s.cpp, Offset2D(s, x', y'), Offset2D(s, x, y));
    }
  }

  /** The element a byte belongs to. */
  lemma ElementOfByte(s: Surface, w: nat, h: nat, b: nat) returns (x: int, y: int)
    requires s.Macro(w, h) && w > 0 && b < Size(s) && s.groupBytes % s.cpp == 0
    ensures s.Has(w, h, x, y) && Offset2D(s, x, y) == b - b % s.cpp
    ensures Offset2D(s, x, y) <= b < Offset2D(s, x, y) + s.cpp
  {
    hide Offset2D, ElementAt, Log2, Pow2, Size;
    var o := b - b % s.cpp;
    Quotient(b, s.cpp);
    DivModIs(o, s.cpp, b / s.cpp, 0);
    MulMonotone(0, b / s.cpp, s.cpp);
    OffsetOfElement(s, w, h, o);
    var (x', y') := ElementAt(s, w, o);
    x, y := x', y';
  }

  /** When a group is smaller than an element, the first element of the next channel overlaps the first one. */
  lemma SmallGroupOverlaps(s: Surface, w: nat, h: nat)
    requires s.Macro(w, h) && w > 0 && h > 0 && s.groupBytes < s.cpp
    ensures !Disjoint(s, w, h)
  {
    hide PixelNumber, PixelAt, Bank, Channel, Log2, Pow2, TileAt, Offset2D, Compose;
    var x0, y0 := FirstElement(s, w, h, 0);
    var x1, y1 := FirstElement(s, w, h, 1);
  }

  /** The first element of a channel in the first bank. */
  lemma FirstElement(s: Surface, w: nat, h: nat, channel: nat) returns (x: nat, y: nat)
    requires s.Macro(w, h) && w > 0 && h > 0 && channel < s.channels
    ensures s.Has(w, h, x, y) && Offset2D(s, x, y) == s.groupBytes * channel
  {
    hide PixelNumber, PixelAt, Bank, Channel, Log2, Pow2, TileAt, Offset2D, Compose;
    TileAtRange(s, 0, 0, 0, channel);
    NumberOfPixel(0, s.cpp);
    var (tx, ty) := TileAt(s, 0, 0, 0, channel);
    var (px, py) := PixelAt(0, s.cpp);
    ComposeRange(s.banks, 0, tx, px, w);
    ComposeRange(s.channels, 0, ty, py, h);
    x, y := Compose(s.banks, 0, tx, px), Compose(s.channels, 0, ty, py);
    MixOfTile(s, x, y, 0, 0, 0, channel);
    PixelLowBits(x, y, px, py, s.cpp);
    OffsetIsInterleave(s, w, h, x, y);
    DivModIs(0, s.groupBytes, 0, 0);
  }

  /** Tiling is a bijection between elements and element-sized pieces exactly when an element fits in a group. */
  lemma BijectionExactlyWhen(s: Surface, w: nat, h: nat)
    requires s.Macro(w, h) && w > 0 && h > 0
    ensures s.cpp <= s.groupBytes <==> Disjoint(s, w, h)
    ensures s.cpp <= s.groupBytes ==> Filled(s, w, h)
  {
    hide Offset2D, Log2, Pow2, Size;
    if s.cpp <= s.groupBytes {
      GroupHoldsElements(s);
      forall x, y, x', y' | s.Has(w, h, x, y) && s.Has(w, h, x', y') && (x, y) != (x', y')
        ensures Offset2D(s, x, y) + s.cpp <= Offset2D(s, x', y') || Offset2D(s, x', y') + s.cpp <= Offset2D(s, x, y)
      {
        DistinctOffsets(s, w, h, x, y, x', y');
      }
      forall x, y | s.Has(w, h, x, y)
        ensures 0 <= Offset2D(s, x, y) && Offset2D(s, x, y) + s.cpp <= Size(s)
      {
        OffsetInside(s, w, h, x, y);
      }
      forall b | 0 <= b < Size(s)
        ensures InSomeElement(s, w, h, b)
      {
        var x, y := ElementOfByte(s, w, h, b);
      }
    } else {
      SmallGroupOverlaps(s, w, h);
    }
  }
}
