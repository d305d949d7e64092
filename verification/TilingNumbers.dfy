/**
 R600 surface tiling by values: bank, channel and micro tile number as sums of quotients, and what a step of a
 macro tile does to an offset (src/gpu/mesa_r600_tiling.cpp).
 */
module TilingNumbers {
  import opened Words
  import opened Tiling

  // ---------------------------------------------------------------- banks, channels and pixels

  function Parity(n: int): (p: int)
    ensures 0 <= p <= 1
  {
    n % 2
  }

  /** The bank of an element: parities of tile columns and of rows of macro tiles. */
  function BankNumber(banks: int, bankOp: bool, channels: int, x: nat, y: nat): int
    requires channels > 0
  {
    var column, row := x / 8, (y / 8) / channels;
    BankOf(banks, bankOp, column, column / 2, column / 4, column / 8, row, row / 2, row / 4)
  }

  function BankOf(banks: int, bankOp: bool, c1: int, c2: int, c4: int, c8: int, r1: int, r2: int, r4: int): int {
    if banks == 4 then Parity(c1 + r2) + 2 * Parity(c2 + r1 + if bankOp then c4 else 0)
    else Parity(c1 + r4) + 2 * Parity(c2 + r2 + r4) + 4 * Parity(c4 + r1 + if bankOp then c8 else 0)
  }

  /** The channel of an element: parities of tile columns and tile rows. */
  function ChannelNumber(channels: int, x: nat, y: nat): int {
    var column, row := x / 8, y / 8;
    ChannelOf(channels, column, column / 2, column / 4, row, row / 2, row / 4)
  }

  function ChannelOf(channels: int, c1: int, c2: int, c4: int, r1: int, r2: int, r4: int): int {
    if channels == 2 then Parity(c1 + r1)
    else if channels == 4 then Parity(c2 + r1) + 2 * Parity(c1 + r2)
    else Parity(c4 + r1) + 2 * Parity(c2 + c4 + r2) + 4 * Parity(c1 + r4)
  }

  /** The place of an element in its micro tile: how many of the 64 come before it. */
  function PlaceInTile(cpp: int, x: nat, y: nat): int {
    var x', y' := x % 8, y % 8;
    if cpp == 1 then x' + 8 * ((y' / 2) % 2) + 16 * (y' % 2) + 32 * (y' / 4)
    else if cpp == 2 then x' + 8 * y'
    else if cpp == 4 then x' % 4 + 4 * (y' % 2) + 8 * (x' / 4) + 16 * (y' / 2)
    else if cpp == 8 then x' % 2 + 2 * (y' % 2) + 4 * (x' / 2) + 16 * (y' / 2)
    else y' % 2 + 2 * x' + 16 * (y' / 2)
  }

  lemma Bits3(v: nat)
    ensures Bit(v, 0) == v % 2 && Bit(v, 1) == (v / 2) % 2 && Bit(v, 2) == (v / 4) % 2
    ensures Bit(v, 3) == (v / 8) % 2
  {
    HalfTwice(v);
  }

  lemma HalfTwice(v: nat)
    ensures v / 2 / 2 == v / 4 && v / 4 / 2 == v / 8
  {}

  lemma XorParity(a: int, b: int)
    ensures Xor(Parity(a), Parity(b)) == Parity(a + b)
  {}

  /** The bits of a coordinate above its place in a micro tile. */
  lemma TileBitsOf(v: nat)
    ensures Bit(v, 3) == Parity(v / 8) && Bit(v, 4) == Parity(v / 8 / 2)
    ensures Bit(v, 5) == Parity(v / 8 / 4) && Bit(v, 6) == Parity(v / 8 / 8)
  {
    hide Bit;
    Bits3(v / 8);
    Shift3(v, 0);
    Shift3(v, 1);
    Shift3(v, 2);
    Shift3(v, 3);
  }

  lemma ChannelBits(channels: int, x: nat, y: nat, c1: int, c2: int, c4: int, r1: int, r2: int, r4: int)
    requires channels in {2, 4, 8}
    requires Bit(x, 3) == Parity(c1) && Bit(x, 4) == Parity(c2) && Bit(x, 5) == Parity(c4)
    requires Bit(y, 3) == Parity(r1) && Bit(y, 4) == Parity(r2) && Bit(y, 5) == Parity(r4)
    ensures Channel(channels, x, y) == ChannelOf(channels, c1, c2, c4, r1, r2, r4)
  {
    hide Bit, Xor, Parity;
    XorParity(c1, r1);
    XorParity(c2, r1);
    XorParity(c1, r2);
    XorParity(c4, r1);
    XorParity(c2, c4);
    XorParity(c2 + c4, r2);
    XorParity(c1, r4);
  }

  lemma ChannelIs(channels: int, x: nat, y: nat)
    requires channels in {2, 4, 8}
    ensures Channel(channels, x, y) == ChannelNumber(channels, x, y)
  {
    hide Bit, Xor, Parity, ChannelOf, Channel;
    TileBitsOf(x);
    TileBitsOf(y);
    ChannelBits(channels, x, y, x / 8, x / 8 / 2, x / 8 / 4, y / 8, y / 8 / 2, y / 8 / 4);
  }

  lemma HalfBit(v: nat, k: nat)
    ensures v / 2 >= 0 && Bit(v, 1 + k) == Bit(v / 2, k)
  {
    ShiftNext(v, k);
  }

  /** The bits above the channel bits belong to the row of macro tiles. */
  lemma RowBits(y: nat, channels: int)
    requires channels in {2, 4, 8}
    ensures var row := (y / 8) / channels;
      && Bit(y, 3 + Log2(channels)) == Parity(row) && Bit(y, 4 + Log2(channels)) == Parity(row / 2)
      && Bit(y, 5 + Log2(channels)) == Parity(row / 4)
  {
    hide Bit;
    var v := y / 8;
    assert Log2(2) == 1 && Log2(4) == 2 && Log2(8) == 3;
    HalfTwice(v);
    Bits3(v / channels);
    forall k: nat | k < 3
      ensures Bit(y, 3 + (Log2(channels) + k)) == Bit(v / channels, k)
    {
      Shift3(y, Log2(channels) + k);
      BitsFrom(v, channels, k);
    }
    assert Bit(y, 3 + (Log2(channels) + 0)) == Bit(v / channels, 0);
    assert Bit(y, 3 + (Log2(channels) + 1)) == Bit(v / channels, 1);
    assert Bit(y, 3 + (Log2(channels) + 2)) == Bit(v / channels, 2);
  }

  lemma BitsFrom(v: nat, channels: int, k: nat)
    requires channels in {2, 4, 8}
    ensures v / channels >= 0 && Bit(v, Log2(channels) + k) == Bit(v / channels, k)
  {
    hide Bit;
    assert Log2(2) == 1 && Log2(4) == 2 && Log2(8) == 3;
    HalfTwice(v);
    HalfBit(v, k);
    HalfBit(v, 1 + k);
    HalfBit(v, 2 + k);
    HalfBit(v / 2, k);
    HalfBit(v / 2, 1 + k);
    HalfBit(v / 2 / 2, k);
  }

  lemma BankBits4(bankOp: bool, n: nat, x: nat, y: nat, c1: int, c2: int, c4: int, c8: int, r1: int, r2: int, r4: int)
    requires Bit(x, 3) == Parity(c1) && Bit(x, 4) == Parity(c2) && Bit(x, 5) == Parity(c4)
    requires Bit(y, 3 + n) == Parity(r1) && Bit(y, 4 + n) == Parity(r2)
    ensures Bank(4, bankOp, n, x, y) == BankOf(4, bankOp, c1, c2, c4, c8, r1, r2, r4)
  {
    hide Bit, Xor, Parity;
    XorParity(c1, r2);
    XorParity(c2, r1);
    XorParity(c2 + r1, c4);
  }

  lemma BankBits8(bankOp: bool, n: nat, x: nat, y: nat, c1: int, c2: int, c4: int, c8: int, r1: int, r2: int, r4: int)
    requires Bit(x, 3) == Parity(c1) && Bit(x, 4) == Parity(c2) && Bit(x, 5) == Parity(c4) && Bit(x, 6) == Parity(c8)
    requires Bit(y, 3 + n) == Parity(r1) && Bit(y, 4 + n) == Parity(r2) && Bit(y, 5 + n) == Parity(r4)
    ensures Bank(8, bankOp, n, x, y) == BankOf(8, bankOp, c1, c2, c4, c8, r1, r2, r4)
  {
    hide Bit, Xor, Parity;
    XorParity(c1, r4);
    XorParity(c2, r2);
    XorParity(c2 + r2, r4);
    XorParity(c4, r1);
    XorParity(c4 + r1, c8);
  }

  lemma BankIs(banks: int, bankOp: bool, channels: int, x: nat, y: nat)
    requires banks in {4, 8} && channels in {2, 4, 8}
    ensures Bank(banks, bankOp, Log2(channels), x, y) == BankNumber(banks, bankOp, channels, x, y)
  {
    hide Bit, Xor, Log2, Parity, Bank, BankOf;
    var column, row := x / 8, (y / 8) / channels;
    TileBitsOf(x);
    RowBits(y, channels);
    if banks == 4 {
      BankBits4(bankOp, Log2(channels), x, y, column, column / 2, column / 4, column / 8, row, row / 2, row / 4);
    } else {
      BankBits8(bankOp, Log2(channels), x, y, column, column / 2, column / 4, column / 8, row, row / 2, row / 4);
    }
  }

  lemma PixelIs(x: nat, y: nat, cpp: int)
    requires cpp in {1, 2, 4, 8, 16}
    ensures PixelNumber(x, y, cpp) == PlaceInTile(cpp, x, y)
  {
    hide Bit;
    Bits3(x);
    Bits3(y);
    LowBits(x);
    LowBits(y);
  }

  lemma EvenPart(a: int, n: int)
    ensures (2 * a + n) % 2 == n % 2
  {}

  lemma LowBits(v: nat)
    ensures var v', b0, b1, b2 := v % 8, v % 2, (v / 2) % 2, (v / 4) % 2;
      && v' % 2 == b0 && (v' / 2) % 2 == b1 && v' / 4 == b2 && v' % 4 == b0 + 2 * b1 && v' / 2 == b1 + 2 * b2
      && v' == b0 + 2 * b1 + 4 * b2
  {
    var q, r := v / 8, v % 8;
    assert v == 2 * (4 * q) + r && v / 2 == 2 * (2 * q) + r / 2 && v / 4 == 2 * q + r / 4;
    EvenPart(4 * q, r);
    EvenPart(2 * q, r / 2);
    EvenPart(q, r / 4);
    Below8(r);
  }

  lemma Below8(r: nat)
    requires r < 8
    ensures r / 4 == (r / 4) % 2 && r % 4 == r % 2 + 2 * ((r / 2) % 2) && r / 2 == (r / 2) % 2 + 2 * (r / 4)
    ensures r == r % 2 + 2 * ((r / 2) % 2) + 4 * (r / 4)
  {}

  // ---------------------------------------------------------------- the whole offset

  /** The offset of an element, for every configuration: groups go round the channels, then the banks. */
  lemma OffsetInNumbers(s: Surface, w: nat, h: nat, x: nat, y: nat)
    requires s.Macro(w, h)
    ensures var macro := ((y / 8) / s.channels) * w + (x / 8) / s.banks;
      var total, g := macro * (64 * s.cpp) + PlaceInTile(s.cpp, x, y) * s.cpp, s.groupBytes;
      var bank, channel := BankNumber(s.banks, s.bankOp, s.channels, x, y), ChannelNumber(s.channels, x, y);
      Offset2D(s, x, y) == g * ((total / g) * (s.banks * s.channels) + bank * s.channels + channel) + total % g
  {
    hide Offset2D, Bank, Channel, PixelNumber, Log2, Pow2, BankNumber, ChannelNumber, PlaceInTile;
    OffsetIsInterleave(s, w, h, x, y);
    BankIs(s.banks, s.bankOp, s.channels, x, y);
    ChannelIs(s.channels, x, y);
    PixelIs(x, y, s.cpp);
  }

  // ---------------------------------------------------------------- steps of a macro tile

  lemma ParityAdd(a: int, b: int)
    ensures Parity(a + b) == if Parity(b) == 0 then Parity(a) else 1 - Parity(a)
    ensures Parity(a + 2 * b) == Parity(a)
  {}

  /** The bank operation changes the top bit of the bank in odd columns of macro tiles, and nothing else. */
  lemma BankOperation(s: Surface, w: nat, h: nat, x: nat, y: nat)
    requires s.Macro(w, h) && s.bankOp
    ensures var bank, half := BankNumber(s.banks, false, s.channels, x, y), s.banks / 2;
      var turn := if Parity((x / 8) / s.banks) == 0 then 0 else if bank < half then half else -half;
      Offset2D(s, x, y) == Offset2D(s.(bankOp := false), x, y) + s.groupBytes * (turn * s.channels)
  {
    hide Offset2D, Log2, Pow2, BankNumber, ChannelNumber, PlaceInTile, Parity;
    var plain := s.(bankOp := false);
    OffsetInNumbers(s, w, h, x, y);
    OffsetInNumbers(plain, w, h, x, y);
    BankFlips(s.banks, s.channels, x, y);
    var bank, half := BankNumber(s.banks, false, s.channels, x, y), s.banks / 2;
    var turn := if Parity((x / 8) / s.banks) == 0 then 0 else if bank < half then half else -half;
    var macro := ((y / 8) / s.channels) * w + (x / 8) / s.banks;
    var total := macro * (64 * s.cpp) + PlaceInTile(s.cpp, x, y) * s.cpp;
    TurnedBank(s.groupBytes, (total / s.groupBytes) * (s.banks * s.channels), bank, turn, s.channels, ChannelNumber(s.channels, x, y));
  }

  lemma TurnedBank(g: int, a: int, bank: int, turn: int, c: int, channel: int)
    ensures g * (a + (bank + turn) * c + channel) == g * (a + bank * c + channel) + g * (turn * c)
  {
    assert (bank + turn) * c == bank * c + turn * c;
  }

  lemma BankFlips(banks: int, channels: int, x: nat, y: nat)
    requires banks in {4, 8} && channels > 0
    ensures var bank, half := BankNumber(banks, false, channels, x, y), banks / 2;
      0 <= bank < banks && BankNumber(banks, true, channels, x, y) ==
        bank + if Parity((x / 8) / banks) == 0 then 0 else if bank < half then half else -half
  {
    hide Parity;
    var column, row := x / 8, (y / 8) / channels;
    BankOfFlips(banks, column, column / 2, column / 4, column / 8, row, row / 2, row / 4);
  }

  lemma BankOfFlips(banks: int, c1: int, c2: int, c4: int, c8: int, r1: int, r2: int, r4: int)
    requires banks in {4, 8}
    ensures var bank, half := BankOf(banks, false, c1, c2, c4, c8, r1, r2, r4), banks / 2;
      0 <= bank < banks && BankOf(banks, true, c1, c2, c4, c8, r1, r2, r4) ==
        bank + if Parity(if banks == 4 then c4 else c8) == 0 then 0 else if bank < half then half else -half
  {
    hide Parity;
    ParityAdd(c2 + r1, c4);
    ParityAdd(c4 + r1, c8);
  }

  /** Bank and channel in one number. */
  function Place(s: Surface, x: nat, y: nat): int
    requires s.channels > 0
  {
    BankNumber(s.banks, s.bankOp, s.channels, x, y) * s.channels + ChannelNumber(s.channels, x, y)
  }

  /** Whether bank and channel are the same `k` columns of macro tiles further on. */
  predicate SamePlace(s: Surface, k: nat) {
    k % 2 == 0 || (!s.bankOp && !(s.banks == 4 && s.channels == 8))
  }

  /**
   `k` columns of macro tiles are `k` macro tiles of bytes exactly when bank and channel are the same there: for
   an odd `k`, only with the bank operation off and not with four banks and eight channels.
   */
  lemma MacroColumnsExactlyWhen(s: Surface, w: nat, h: nat, x: nat, y: nat, k: nat)
    requires s.Macro(w, h)
    ensures 8 * s.banks * k >= 0
    ensures Offset2D(s, x + 8 * s.banks * k, y) == Offset2D(s, x, y) + k * (s.banks * s.channels * s.TileBytes())
      <==> SamePlace(s, k)
  {
    hide Offset2D, Log2, Pow2, BankNumber, ChannelNumber, PlaceInTile;
    var x' := x + 8 * s.banks * k;
    MovedColumn(x, s.banks, k);
    OffsetInNumbers(s, w, h, x, y);
    OffsetInNumbers(s, w, h, x', y);
    MovedPlace(s, x, y, k);
    var g, tile, all := s.groupBytes, s.TileBytes(), s.banks * s.channels;
    var macro := ((y / 8) / s.channels) * w + (x / 8) / s.banks;
    var total := macro * (64 * s.cpp) + PlaceInTile(s.cpp, x, y) * s.cpp;
    MovedTotal(macro, k, tile, PlaceInTile(s.cpp, x, y) * s.cpp, g);
    MovedOffset(g, total / g, k, tile, all, Place(s, x, y), Place(s, x', y), total % g);
  }

  lemma MovedColumn(x: nat, banks: int, k: nat)
    requires banks in {4, 8}
    ensures 8 * banks * k >= 0
    ensures var x' := x + 8 * banks * k;
      && x' % 8 == x % 8 && x' / 8 == x / 8 + banks * k && (x' / 8) / banks == (x / 8) / banks + k
  {}

  lemma MovedTotal(macro: int, k: int, tile: int, inside: int, g: int)
    requires g > 0 && tile % g == 0
    ensures var total, total' := macro * tile + inside, (macro + k) * tile + inside;
      total' / g == total / g + k * (tile / g) && total' % g == total % g
  {
    var total := macro * tile + inside;
    assert tile == g * (tile / g) && total == g * (total / g) + total % g;
    assert (macro + k) * tile + inside == total + k * tile;
    assert k * tile == g * (k * (tile / g));
    DivModIs(total + k * tile, g, total / g + k * (tile / g), total % g);
  }

  lemma MovedOffset(g: int, n: int, k: int, tile: int, all: int, place: int, place': int, low: int)
    requires g > 0 && tile % g == 0
    ensures g * ((n + k * (tile / g)) * all + place') + low == g * (n * all + place) + low + k * (all * tile)
      <==> place' == place
  {
    var m := tile / g;
    assert tile == g * m;
    assert (n + k * m) * all == n * all + (k * m) * all;
    assert g * ((k * m) * all) == k * (all * (g * m));
    assert g * (n * all + (k * m) * all + place') == g * (n * all + place') + g * ((k * m) * all);
    assert g * (n * all + place') == g * (n * all) + g * place' && g * (n * all + place) == g * (n * all) + g * place;
    if g * place' == g * place {
      assert g * (place' - place) == 0;
    }
  }

  lemma MovedPlace(s: Surface, x: nat, y: nat, k: nat)
    requires s.Valid()
    ensures 8 * s.banks * k >= 0
    ensures var x' := x + 8 * s.banks * k;
      && PlaceInTile(s.cpp, x', y) == PlaceInTile(s.cpp, x, y)
      && (Place(s, x', y) == Place(s, x, y) <==> SamePlace(s, k))
  {
    hide Log2, Pow2, BankNumber, ChannelNumber;
    MovedColumn(x, s.banks, k);
    var x' := x + 8 * s.banks * k;
    MovedBank(s.banks, s.bankOp, s.channels, x, y, k);
    MovedChannel(s.banks, s.channels, x, y, k);
    OnePlace(s.channels, BankNumber(s.banks, s.bankOp, s.channels, x', y), ChannelNumber(s.channels, x', y),
             BankNumber(s.banks, s.bankOp, s.channels, x, y), ChannelNumber(s.channels, x, y));
  }

  /** Bank and channel can be read off their place. */
  lemma OnePlace(c: int, bank: int, channel: int, bank': int, channel': int)
    requires 0 <= channel < c && 0 <= channel' < c
    ensures bank * c + channel == bank' * c + channel' <==> bank == bank' && channel == channel'
  {
    if bank * c + channel == bank' * c + channel' && bank != bank' {
      assert c * (bank - bank') == bank * c - bank' * c;
      MulAway(c, bank - bank');
    }
  }

  /** Tile columns, and halves and quarters of them, `k` columns of macro tiles further on. */
  lemma MovedTiles(x: nat, banks: int, k: nat)
    requires banks in {4, 8}
    ensures 8 * banks * k >= 0
    ensures var c, c' := x / 8, (x + 8 * banks * k) / 8;
      && c' / 2 == c / 2 + (if banks == 4 then 2 else 4) * k && c' / 4 == c / 4 + (if banks == 4 then 1 else 2) * k
      && c' == c + banks * k && (banks == 8 ==> c' / 8 == c / 8 + k)
  {}

  lemma MovedBank(banks: int, bankOp: bool, channels: int, x: nat, y: nat, k: nat)
    requires banks in {4, 8} && channels > 0
    ensures 8 * banks * k >= 0
    ensures BankNumber(banks, bankOp, channels, x + 8 * banks * k, y) == BankNumber(banks, bankOp, channels, x, y)
      <==> k % 2 == 0 || !bankOp
  {
    hide Parity, BankOf;
    var column, row := x / 8, (y / 8) / channels;
    MovedTiles(x, banks, k);
    if banks == 4 {
      BankOfMoved4(bankOp, column, column / 2, column / 4, column / 8, (x + 32 * k) / 8 / 8, row, row / 2, row / 4, k);
    } else {
      BankOfMoved8(bankOp, column, column / 2, column / 4, column / 8, row, row / 2, row / 4, k);
    }
  }

  lemma BankOfMoved4(op: bool, c1: int, c2: int, c4: int, c8: int, d8: int, r1: int, r2: int, r4: int, k: nat)
    ensures BankOf(4, op, c1 + 4 * k, c2 + 2 * k, c4 + k, d8, r1, r2, r4) == BankOf(4, op, c1, c2, c4, c8, r1, r2, r4)
      <==> k % 2 == 0 || !op
  {
    ParityAdd(c1 + r2, 2 * k);
    ParityAdd(c2 + r1, k);
    ParityAdd(c2 + r1 + c4, k);
    ParityAdd(c2 + r1 + c4 + k, k);
  }

  lemma BankOfMoved8(op: bool, c1: int, c2: int, c4: int, c8: int, r1: int, r2: int, r4: int, k: nat)
    ensures BankOf(8, op, c1 + 8 * k, c2 + 4 * k, c4 + 2 * k, c8 + k, r1, r2, r4) == BankOf(8, op, c1, c2, c4, c8, r1, r2, r4)
      <==> k % 2 == 0 || !op
  {
    ParityAdd(c1 + r4, 4 * k);
    ParityAdd(c2 + r2 + r4, 2 * k);
    ParityAdd(c4 + r1, k);
    ParityAdd(c4 + r1 + c8, k);
  }

  lemma MovedChannel(banks: int, channels: int, x: nat, y: nat, k: nat)
    requires banks in {4, 8} && channels in {2, 4, 8}
    ensures 8 * banks * k >= 0
    ensures 0 <= ChannelNumber(channels, x, y) < channels && 0 <= ChannelNumber(channels, x + 8 * banks * k, y) < channels
    ensures ChannelNumber(channels, x + 8 * banks * k, y) == ChannelNumber(channels, x, y)
      <==> k % 2 == 0 || !(banks == 4 && channels == 8)
  {
    hide Parity, ChannelOf;
    var column, row := x / 8, y / 8;
    MovedTiles(x, banks, k);
    if banks == 4 {
      ChannelOfMoved(channels, column, column / 2, column / 4, row, row / 2, row / 4, 4 * k, 2 * k, k);
    } else {
      ChannelOfMoved(channels, column, column / 2, column / 4, row, row / 2, row / 4, 8 * k, 4 * k, 2 * k);
    }
  }

  lemma ChannelOfMoved(channels: int, c1: int, c2: int, c4: int, r1: int, r2: int, r4: int, d1: int, d2: int, d4: int)
    requires channels in {2, 4, 8} && d1 % 2 == 0 && d2 % 2 == 0
    ensures 0 <= ChannelOf(channels, c1, c2, c4, r1, r2, r4) < channels
    ensures 0 <= ChannelOf(channels, c1 + d1, c2 + d2, c4 + d4, r1, r2, r4) < channels
    ensures ChannelOf(channels, c1 + d1, c2 + d2, c4 + d4, r1, r2, r4) == ChannelOf(channels, c1, c2, c4, r1, r2, r4)
      <==> d4 % 2 == 0 || channels != 8
  {
    hide Parity;
    ParityEven(d1);
    ParityEven(d2);
    ParityEven(d4);
    ParityAdd(d4, d2);
    ParityAdd(c1 + r1, d1);
    ParityAdd(c2 + r1, d2);
    ParityAdd(c1 + r2, d1);
    ParityAdd(c4 + r1, d4);
    ParityAdd(c2 + c4 + r2, d4 + d2);
    ParityAdd(c1 + r4, d1);
  }

  lemma ParityEven(n: int)
    ensures Parity(n) == 0 <==> n % 2 == 0
  {}

  /** The element at (32, 0) of a BC1 surface 256 elements wide, in the configuration that is used. */
  lemma ColumnOne()
    ensures var s := Surface(8, 2048, 64, 256, 2, 4, false);
      s.Macro(8, 4) && Offset2D(s, 32, 0) == 4096
  {
    hide Offset2D, Log2, Pow2;
    var s := Surface(8, 2048, 64, 256, 2, 4, false);
    PowersOf256();
    OffsetInNumbers(s, 8, 4, 32, 0);
  }

  lemma PowersOf256()
    ensures Log2(256) == 8 && Pow2(8) == 256
  {
    assert Log2(4) == 2;
    assert Log2(16) == 4;
    assert Log2(64) == 6;
    assert Pow2(4) == 16;
    Pow2Add(4, 4);
  }
}
