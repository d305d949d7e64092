/**
 Copying a tiled BC1 or BC3 surface into rows (src/gpu/latte_tiling.cpp), and the tiled image it undoes.
 */
module Untile {
  import opened Words
  import opened Tiling
  import opened TilingNumbers

  type Byte = n: int | 0 <= n < 256

  /** The two formats that do not trap. */
  datatype Format = BC1 | BC3

  /** The fields of a GX2Surface that are read, with `Tiled2DThin1` as the only tile mode that does not trap. */
  datatype Texture = Texture(format: Format, width: nat, height: nat, pitch: nat, image: seq<Byte>)
  {
    function Cpp(): nat {
      if format.BC1? then 8 else 16
    }

    /** Elements are blocks of 4 by 4 pixels. */
    function Columns(): nat {
      width / 4
    }

    function Rows(): nat {
      height / 4
    }

    function Layout(rows: nat): Surface {
      Surface(Cpp(), pitch * Cpp(), rows, 256, 2, 4, false)
    }

    /** The image is padded to `w` by `h` macro tiles. */
    ghost predicate Padded(w: nat, h: nat) {
      && w > 0 && pitch == 32 * w && Columns() <= pitch && Rows() <= 16 * h
      && |image| == Size(Layout(16 * h))
    }
  }

  lemma LayoutIsMacro(t: Texture, w: nat, h: nat)
    requires t.Padded(w, h)
    ensures var s := t.Layout(16 * h); s.Macro(w, h) && s.groupBytes % s.cpp == 0
  {
    var s := t.Layout(16 * h);
    MulMonotone(0, t.pitch, s.cpp);
    assert t.pitch * s.cpp == s.cpp * t.pitch;
    Log2Of256();
  }

  lemma Log2Of256()
    ensures Log2(256) == 8 && Pow2(8) == 256
  {
    assert Log2(16) == 4 by {
      assert Log2(4) == 2;
    }
    assert Log2(256 / 2 / 2) == 6 by {
      assert Log2(64 / 2 / 2) == 4;
    }
    assert Pow2(4) == 16;
    Pow2Add(4, 4);
  }

  /** The number of rows plays no part in an offset. */
  lemma OffsetIgnoresHeight(t: Texture, rows: nat, rows': nat, x: nat, y: nat)
    ensures t.pitch * t.Cpp() >= 0
    ensures Offset2D(t.Layout(rows), x, y) == Offset2D(t.Layout(rows'), x, y)
  {
    hide Log2, Bank, Channel, PixelNumber, Pow2;
    MulMonotone(0, t.pitch, t.Cpp());
  }

  lemma SameLayout(t: Texture, rows: nat, rows': nat, x: nat, y: nat)
    ensures t.pitch * t.Cpp() >= 0
    ensures Offset2D(t.Layout(rows), x, y) == Offset2D(t.Layout(rows'), x, y)
    ensures Linear(t.Layout(rows), x, y) == Linear(t.Layout(rows'), x, y)
  {
    hide Offset2D;
    OffsetIgnoresHeight(t, rows, rows', x, y);
  }

  // ---------------------------------------------------------------- bytes of rows

  function Linear(s: Surface, x: int, y: int): int {
    y * s.pitch + x * s.cpp
  }

  /** A byte of an element stored by rows, and back. */
  lemma ByteOfElement(s: Surface, n: nat, x: nat, y: nat, k: nat)
    requires s.cpp > 0 && s.pitch == n * s.cpp && x < n && k < s.cpp
    ensures var b := Linear(s, x, y) + k; b >= 0 && s.pitch > 0 && b / s.pitch == y && (b % s.pitch) / s.cpp == x && b % s.cpp == k
  {
    var b := Linear(s, x, y) + k;
    MulMonotone(0, y, s.pitch);
    MulMonotone(0, x, s.cpp);
    MulMonotone(x + 1, n, s.cpp);
    assert (x + 1) * s.cpp == x * s.cpp + s.cpp;
    assert y * s.pitch == s.pitch * y && x * s.cpp == s.cpp * x;
    DivModIs(b, s.pitch, y, x * s.cpp + k);
    DivModIs(x * s.cpp + k, s.cpp, x, k);
    assert y * s.pitch == (y * n) * s.cpp;
    assert b == s.cpp * (y * n + x) + k;
    DivModIs(b, s.cpp, y * n + x, k);
  }

  lemma ElementOfLinear(s: Surface, n: nat, b: nat)
    requires s.cpp > 0 && n > 0 && s.pitch == n * s.cpp && s.pitch > 0
    ensures var x, y, k := (b % s.pitch) / s.cpp, b / s.pitch, b % s.cpp;
      0 <= x < n && y >= 0 && 0 <= k < s.cpp && b == Linear(s, x, y) + k
  {
    Quotient(b, s.pitch);
    var rest: nat := b % s.pitch;
    Quotient(rest, s.cpp);
    var x, y, k: nat := rest / s.cpp, b / s.pitch, rest % s.cpp;
    if x >= n {
      MulMonotone(n, x, s.cpp);
    }
    assert x * s.cpp == s.cpp * x && y * s.pitch == s.pitch * y;
    ByteOfElement(s, n, x, y, k);
  }

  lemma RowBelow(s: Surface, b: nat, rows: nat)
    requires s.pitch > 0 && b < s.pitch * rows
    ensures 0 <= b / s.pitch < rows
  {
    Quotient(b, s.pitch);
    DigitsBelow(b / s.pitch, b % s.pitch, s.pitch, rows);
    assert (b / s.pitch) * s.pitch == s.pitch * (b / s.pitch) && rows * s.pitch == s.pitch * rows;
  }

  // ---------------------------------------------------------------- what the loops compute

  /** The byte an element's copy puts at `b`. */
  function Copied(t: Texture, w: nat, h: nat, b: nat): (r: Byte)
    requires t.Padded(w, h) && b < |t.image|
  {
    LayoutIsMacro(t, w, h);
    var s := t.Layout(16 * h);
    PitchPositive(t, w, h);
    ElementOfLinear(s, t.pitch, b);
    RowBelow(s, b, 16 * h);
    var x, y := (b % s.pitch) / s.cpp, b / s.pitch;
    OffsetInside(s, w, h, x, y);
    t.image[Offset2D(s, x, y) + b % s.cpp]
  }

  lemma PitchPositive(t: Texture, w: nat, h: nat)
    requires t.Padded(w, h)
    ensures var s := t.Layout(16 * h); s.pitch > 0 && s.cpp > 0 && s.pitch == t.pitch * s.cpp && Size(s) == s.pitch * (16 * h)
  {
    MulPositive(t.Cpp(), t.pitch);
    assert t.pitch * t.Cpp() == t.Cpp() * t.pitch;
  }

  /** The image by rows, over the first `Columns` and `Rows` elements; other bytes stay as they were. */
  function Untiled(t: Texture, w: nat, h: nat, before: seq<Byte>): (data: seq<Byte>)
    requires t.Padded(w, h) && |before| == |t.image|
    ensures |data| == |t.image|
  {
    PitchPositive(t, w, h);
    var s := t.Layout(16 * h);
    seq(|t.image|, b requires 0 <= b < |t.image| =>
      if (b % s.pitch) / s.cpp < t.Columns() && b / s.pitch < t.Rows() then Copied(t, w, h, b) else before[b])
  }

  /** vector::resize */
  function Resized(before: seq<Byte>, n: nat): (r: seq<Byte>)
    ensures |r| == n
  {
    if |before| >= n then before[..n] else before + seq(n - |before|, i => 0)
  }

  function Patched(s: seq<Byte>, at: nat, piece: seq<Byte>): (r: seq<Byte>)
    requires at + |piece| <= |s|
    ensures |r| == |s|
    ensures forall b :: 0 <= b < |s| ==> r[b] == if at <= b < at + |piece| then piece[b - at] else s[b]
  {
    s[..at] + piece + s[at + |piece|..]
  }

  /** memcpy of `n` bytes from `source[from]` to `target[at]` */
  method CopyBytes(target: array<Byte>, at: nat, source: seq<Byte>, from: nat, n: nat)
    requires at + n <= target.Length && from + n <= |source|
    modifies target
    ensures target[..] == Patched(old(target[..]), at, source[from..from + n])
  {
    var k := 0;
    while k < n
      invariant 0 <= k <= n
      invariant forall b :: 0 <= b < target.Length ==>
        target[b] == if at <= b < at + k then source[from + b - at] else old(target[b])
    {
      target[at + k] := source[from + k];
      k := k + 1;
    }
  }

  /** Whether the loops have copied byte `b` by the time they reach element (x, y). */
  predicate Done(t: Texture, b: nat, x: int, y: int)
    requires t.pitch * t.Cpp() > 0
  {
    var column, row := (b % (t.pitch * t.Cpp())) / t.Cpp(), b / (t.pitch * t.Cpp());
    column < t.Columns() && (row < y || (row == y && column < x))
  }

  /** One more element copied: the bytes it covers, and what they get. */
  lemma CopyStep(t: Texture, w: nat, h: nat, x: nat, y: nat, b: nat)
    requires t.Padded(w, h) && x < t.Columns() && y < t.Rows() && b < |t.image|
    ensures var s := t.Layout(16 * h);
      s.pitch > 0 && (Done(t, b, x + 1, y) <==> Done(t, b, x, y) || Linear(s, x, y) <= b < Linear(s, x, y) + s.cpp)
    ensures var s := t.Layout(16 * h); var o := Offset2D(s, x, y);
      0 <= o && o + s.cpp <= |t.image| && (Linear(s, x, y) <= b < Linear(s, x, y) + s.cpp ==>
        t.image[o + b - Linear(s, x, y)] == Copied(t, w, h, b))
  {
    hide Offset2D, Size, Log2, Pow2;
    var s := t.Layout(16 * h);
    LayoutIsMacro(t, w, h);
    PitchPositive(t, w, h);
    OffsetInside(s, w, h, x, y);
    ElementOfLinear(s, t.pitch, b);
    if Linear(s, x, y) <= b < Linear(s, x, y) + s.cpp {
      ByteOfElement(s, t.pitch, x, y, b - Linear(s, x, y));
    }
  }

  lemma LinearInside(t: Texture, w: nat, h: nat, x: nat, y: nat)
    requires t.Padded(w, h) && x < t.Columns() && y < t.Rows()
    ensures var s := t.Layout(16 * h); 0 <= Linear(s, x, y) && Linear(s, x, y) + s.cpp <= |t.image|
  {
    var s := t.Layout(16 * h);
    PitchPositive(t, w, h);
    MulMonotone(0, y, s.pitch);
    MulMonotone(0, x, s.cpp);
    MulMonotone(x + 1, t.pitch, s.cpp);
    MulMonotone(y + 1, 16 * h, s.pitch);
    assert (x + 1) * s.cpp == x * s.cpp + s.cpp && (y + 1) * s.pitch == y * s.pitch + s.pitch;
    assert (16 * h) * s.pitch == s.pitch * (16 * h);
  }

  /** The state of the output when the loops reach element (x, y). */
  ghost predicate Reached(t: Texture, w: nat, h: nat, start: seq<Byte>, data: seq<Byte>, x: int, y: int)
    requires t.Padded(w, h)
  {
    && |data| == |start| == |t.image| && t.pitch * t.Cpp() > 0
    && forall b :: 0 <= b < |start| ==> data[b] == if Done(t, b, x, y) then Copied(t, w, h, b) else start[b]
  }

  lemma ReachedStart(t: Texture, w: nat, h: nat, start: seq<Byte>)
    requires t.Padded(w, h) && |start| == |t.image|
    ensures Reached(t, w, h, start, start, 0, 0)
  {
    hide Copied, Size;
    PitchPositive(t, w, h);
    forall b: nat
      ensures b / (t.pitch * t.Cpp()) >= 0
    {
      Quotient(b, t.pitch * t.Cpp());
    }
  }

  lemma ReachedStep(t: Texture, w: nat, h: nat, start: seq<Byte>, data: seq<Byte>, x: nat, y: nat)
    requires t.Padded(w, h) && x < t.Columns() && y < t.Rows() && Reached(t, w, h, start, data, x, y)
    ensures var s := t.Layout(16 * h); var o := Offset2D(s, x, y); var at := Linear(s, x, y);
      && 0 <= o && o + s.cpp <= |t.image| && 0 <= at && at + s.cpp <= |data|
      && Reached(t, w, h, start, Patched(data, at, t.image[o..o + s.cpp]), x + 1, y)
  {
    hide Offset2D, Size, Copied, Done, Linear, Log2, Pow2;
    var s := t.Layout(16 * h);
    LinearInside(t, w, h, x, y);
    forall b: nat | b < |t.image|
      ensures s.pitch > 0 && (Done(t, b, x + 1, y) <==> Done(t, b, x, y) || Linear(s, x, y) <= b < Linear(s, x, y) + s.cpp)
      ensures 0 <= Offset2D(s, x, y) && Offset2D(s, x, y) + s.cpp <= |t.image|
      ensures Linear(s, x, y) <= b < Linear(s, x, y) + s.cpp ==>
        t.image[Offset2D(s, x, y) + b - Linear(s, x, y)] == Copied(t, w, h, b)
    {
      CopyStep(t, w, h, x, y, b);
    }
    PitchPositive(t, w, h);
    LayoutIsMacro(t, w, h);
    OffsetInside(s, w, h, x, y);
  }

  lemma ReachedRow(t: Texture, w: nat, h: nat, start: seq<Byte>, data: seq<Byte>, y: nat)
    requires t.Padded(w, h) && Reached(t, w, h, start, data, t.Columns(), y)
    ensures Reached(t, w, h, start, data, 0, y + 1)
  {
    hide Copied, Size;
  }

  lemma ReachedEnd(t: Texture, w: nat, h: nat, start: seq<Byte>, data: seq<Byte>)
    requires t.Padded(w, h) && Reached(t, w, h, start, data, 0, t.Rows())
    ensures data == Untiled(t, w, h, start)
  {
    hide Copied, Size;
  }

  /** Elements listed row by row: the `i`-th is (i % columns, i / columns), and so each is listed once. */
  ghost predicate RowByRow(written: seq<(int, int)>, columns: nat) {
    forall i :: 0 <= i < |written| ==> columns > 0 && written[i] == (i % columns, i / columns)
  }

  lemma OneMoreElement(written: seq<(int, int)>, columns: nat, x: nat, y: nat)
    requires RowByRow(written, columns) && x < columns && |written| == y * columns + x
    ensures RowByRow(written + [(x, y)], columns)
  {
    DivModIs(|written|, columns, y, x);
  }

  lemma NoneWritten(columns: nat)
    ensures RowByRow([], columns)
  {}

  lemma RowEnds(columns: int, y: int)
    ensures y * columns + columns == (y + 1) * columns
  {}

  /** untileSurface; `written` lists the elements in the order of their copies. */
  method UntileSurface(t: Texture, before: seq<Byte>, ghost w: nat, ghost h: nat)
    returns (data: array<Byte>, rowPitch: nat, ghost written: seq<(int, int)>)
    requires t.Padded(w, h)
    ensures fresh(data) && rowPitch == t.pitch * t.Cpp()
    ensures data[..] == Untiled(t, w, h, Resized(before, |t.image|))
    ensures |written| == t.Rows() * t.Columns() && RowByRow(written, t.Columns())
  {
    hide Offset2D, Size, Copied, Done, Linear, Log2, Pow2, Reached, Untiled, Patched, Resized, RowByRow;
    var start := Resized(before, |t.image|);
    data := new Byte[|t.image|](i requires 0 <= i < |start| => start[i]);
    assert data[..] == start;
    PitchPositive(t, w, h);
    ReachedStart(t, w, h, start);
    var s := t.Layout(t.Rows());
    written := [];
    assert RowByRow(written, t.Columns()) by { NoneWritten(t.Columns()); }
    var y := 0;
    while y < t.Rows()
      invariant 0 <= y <= t.Rows() && data.Length == |t.image|
      invariant |written| == y * t.Columns() && RowByRow(written, t.Columns())
      invariant Reached(t, w, h, start, data[..], 0, y)
    {
      var x := 0;
      while x < t.Columns()
        invariant 0 <= x <= t.Columns() && data.Length == |t.image|
        invariant |written| == y * t.Columns() + x && RowByRow(written, t.Columns())
        invariant Reached(t, w, h, start, data[..], x, y)
      {
        ReachedStep(t, w, h, start, data[..], x, y);
        SameLayout(t, t.Rows(), 16 * h, x, y);
        CopyBytes(data, Linear(s, x, y), t.image, Offset2D(s, x, y), s.cpp);
        OneMoreElement(written, t.Columns(), x, y);
        written := written + [(x, y)];
        x := x + 1;
      }
      RowEnds(t.Columns(), y);
      ReachedRow(t, w, h, start, data[..], y);
      y := y + 1;
    }
    ReachedEnd(t, w, h, start, data[..]);
    rowPitch := s.pitch;
  }

  // ---------------------------------------------------------------- the copies in numbers

  /** Where the bytes of element (x, y) are in an image that is `w` macro tiles wide, with 2 channels, 4 banks and groups of 256 bytes. */
  function ElementOffset(cpp: int, w: nat, x: nat, y: nat): int {
    var total := ((y / 16) * w + x / 32) * (64 * cpp) + PlaceInTile(cpp, x, y) * cpp;
    var bank, channel := (x / 8 + y / 32) % 2 + 2 * ((x / 16 + y / 16) % 2), (x / 8 + y / 8) % 2;
    256 * ((total / 256) * 8 + 2 * bank + channel) + total % 256
  }

  lemma ElementOffsetIs(t: Texture, w: nat, h: nat, x: nat, y: nat)
    requires t.Padded(w, h)
    ensures t.Layout(16 * h).Valid() && Offset2D(t.Layout(16 * h), x, y) == ElementOffset(t.Cpp(), w, x, y)
  {
    hide Offset2D, PlaceInTile, Log2, Pow2, Size;
    var s := t.Layout(16 * h);
    LayoutIsMacro(t, w, h);
    OffsetInNumbers(s, w, h, x, y);
    Halves(x, y);
    BankIsSum(s, w, x, y);
  }

  lemma Halves(x: nat, y: nat)
    ensures (x / 8) / 2 == x / 16 && (x / 8) / 4 == x / 32 && (y / 8) / 2 == y / 16 && y / 16 / 2 == y / 32
  {}

  lemma BankIsSum(s: Surface, w: nat, x: nat, y: nat)
    requires (x / 8) / 2 == x / 16 && (y / 8) / 2 == y / 16 && y / 16 / 2 == y / 32
    ensures BankNumber(4, false, 2, x, y) == (x / 8 + y / 32) % 2 + 2 * ((x / 16 + y / 16) % 2)
    ensures ChannelNumber(2, x, y) == (x / 8 + y / 8) % 2
  {}

  lemma UntiledElement(t: Texture, w: nat, h: nat, before: seq<Byte>, x: nat, y: nat, k: nat)
    requires t.Padded(w, h) && |before| == |t.image| && x < t.Columns() && y < t.Rows() && k < t.Cpp()
    ensures var s := t.Layout(16 * h);
      var at := Linear(s, x, y) + k;
      && 0 <= at < |t.image| && s.Valid() && 0 <= Offset2D(s, x, y) && Offset2D(s, x, y) + k < |t.image|
      && Untiled(t, w, h, before)[at] == t.image[Offset2D(s, x, y) + k]
  {
    hide Offset2D, Linear, Log2, Pow2, Size;
    var s := t.Layout(16 * h);
    PitchPositive(t, w, h);
    LayoutIsMacro(t, w, h);
    LinearInside(t, w, h, x, y);
    ByteOfElement(s, t.pitch, x, y, k);
    OffsetInside(s, w, h, x, y);
  }

  lemma LinearIs(y: int, x: int, pitch: int, cpp: int)
    ensures (y * pitch + x) * cpp == y * (pitch * cpp) + x * cpp
  {}

  /** Each byte of each visible element comes from the element's place in the tiled image. */
  lemma UntiledInNumbers(t: Texture, w: nat, h: nat, before: seq<Byte>, x: nat, y: nat, k: nat)
    requires t.Padded(w, h) && |before| == |t.image| && x < t.width / 4 && y < t.height / 4
    requires k < if t.format.BC1? then 8 else 16
    ensures var cpp := if t.format.BC1? then 8 else 16;
      var at, from := (y * t.pitch + x) * cpp + k, ElementOffset(cpp, w, x, y) + k;
      0 <= at < |t.image| && 0 <= from < |t.image| && Untiled(t, w, h, before)[at] == t.image[from]
  {
    hide Offset2D, ElementOffset, Untiled, Log2, Pow2, Size, Texture.Padded;
    UntiledElement(t, w, h, before, x, y, k);
    ElementOffsetIs(t, w, h, x, y);
    LinearIs(y, x, t.pitch, t.Cpp());
  }

  // ---------------------------------------------------------------- undoing the tiling

  /** Every element of `rows` sits at its tiled offset in `image`. */
  ghost predicate Stores(s: Surface, w: nat, h: nat, image: seq<Byte>, rows: seq<Byte>)
    requires s.Macro(w, h)
  {
    && |image| == |rows| == Size(s)
    && forall x, y :: s.Has(w, h, x, y) ==> StoresElement(s, image, rows, x, y)
  }

  ghost predicate StoresElement(s: Surface, image: seq<Byte>, rows: seq<Byte>, x: nat, y: nat)
    requires s.Valid()
  {
    var o, at := Offset2D(s, x, y), Linear(s, x, y);
    && 0 <= o <= o + s.cpp <= |image| && 0 <= at <= at + s.cpp <= |rows|
    && image[o..o + s.cpp] == rows[at..at + s.cpp]
  }

  /** The tiled image of rows: each byte goes with its element. */
  function Tiled(s: Surface, w: nat, rows: seq<Byte>): (image: seq<Byte>)
    requires s.Valid() && w > 0
    ensures |image| == |rows|
  {
    seq(|rows|, b requires 0 <= b < |rows| => TiledByte(s, w, rows, b))
  }

  function TiledByte(s: Surface, w: nat, rows: seq<Byte>, b: nat): Byte
    requires s.Valid() && w > 0
  {
    Quotient(b, s.cpp);
    MulMonotone(0, b / s.cpp, s.cpp);
    var (x, y) := ElementAt(s, w, b - b % s.cpp);
    var from := Linear(s, x, y) + b % s.cpp;
    if 0 <= from < |rows| then rows[from] else 0
  }

  /** The tiled image holds every element. */
  lemma TiledStores(s: Surface, w: nat, h: nat, rows: seq<Byte>)
    requires s.Macro(w, h) && w > 0 && s.groupBytes % s.cpp == 0 && |rows| == Size(s)
    ensures Stores(s, w, h, Tiled(s, w, rows), rows)
  {
    hide Offset2D, ElementAt, Log2, Pow2, Size;
    var image := Tiled(s, w, rows);
    forall x, y | s.Has(w, h, x, y)
      ensures StoresElement(s, image, rows, x, y)
    {
      TiledStoresElement(s, w, h, rows, x, y);
    }
  }

  lemma TiledStoresElement(s: Surface, w: nat, h: nat, rows: seq<Byte>, x: nat, y: nat)
    requires s.Macro(w, h) && w > 0 && s.groupBytes % s.cpp == 0 && |rows| == Size(s) && s.Has(w, h, x, y)
    ensures StoresElement(s, Tiled(s, w, rows), rows, x, y)
  {
    hide Offset2D, ElementAt, Log2, Pow2, Size, Linear, TiledByte;
    var o, at := Offset2D(s, x, y), Linear(s, x, y);
    OffsetInside(s, w, h, x, y);
    ElementOfOffset(s, w, h, x, y);
    LinearElementInside(s, w, h, x, y);
    var got, want := Tiled(s, w, rows)[o..o + s.cpp], rows[at..at + s.cpp];
    forall k | 0 <= k < |got|
      ensures got[k] == want[k]
    {
      TiledElementByte(s, w, rows, x, y, o, k);
    }
  }

  lemma TiledElementByte(s: Surface, w: nat, rows: seq<Byte>, x: int, y: int, o: nat, k: nat)
    requires s.Valid() && w > 0 && k < s.cpp && o % s.cpp == 0 && ElementAt(s, w, o) == (x, y)
    requires 0 <= Linear(s, x, y) && Linear(s, x, y) + s.cpp <= |rows|
    ensures TiledByte(s, w, rows, o + k) == rows[Linear(s, x, y) + k]
  {
    hide ElementAt, Log2, Pow2, Linear;
    DivModIs(o + k, s.cpp, o / s.cpp, k);
  }

  lemma LinearElementInside(s: Surface, w: nat, h: nat, x: nat, y: nat)
    requires s.Macro(w, h) && s.Has(w, h, x, y)
    ensures 0 <= Linear(s, x, y) && Linear(s, x, y) + s.cpp <= Size(s)
  {
    hide Log2, Pow2;
    MulMonotone(0, y, s.pitch);
    MulMonotone(0, x, s.cpp);
    MulMonotone(x + 1, 8 * s.banks * w, s.cpp);
    MulMonotone(y + 1, s.height, s.pitch);
    assert (x + 1) * s.cpp == x * s.cpp + s.cpp && (y + 1) * s.pitch == y * s.pitch + s.pitch;
    assert (8 * s.banks * w) * s.cpp == s.pitch && s.height * s.pitch == s.pitch * s.height;
  }

  /** Untiling the tiled image gives back the rows: every byte of the first `Columns` by `Rows` elements. */
  lemma UntileInvertsTile(t: Texture, w: nat, h: nat, rows: seq<Byte>, before: seq<Byte>, b: nat)
    requires t.Padded(w, h) && t.Layout(16 * h).Macro(w, h)
    requires Stores(t.Layout(16 * h), w, h, t.image, rows) && |before| == |t.image| && b < |t.image|
    ensures t.pitch * t.Cpp() > 0
    ensures var column, row := (b % (t.pitch * t.Cpp())) / t.Cpp(), b / (t.pitch * t.Cpp());
      Untiled(t, w, h, before)[b] == if column < t.Columns() && row < t.Rows() then rows[b] else before[b]
  {
    hide Offset2D, Copied, Size, Log2, Pow2;
    PitchPositive(t, w, h);
    CopiedIsRow(t, w, h, rows, b);
  }

  lemma CopiedIsRow(t: Texture, w: nat, h: nat, rows: seq<Byte>, b: nat)
    requires t.Padded(w, h) && t.Layout(16 * h).Macro(w, h)
    requires Stores(t.Layout(16 * h), w, h, t.image, rows) && b < |t.image|
    ensures Copied(t, w, h, b) == rows[b]
  {
    hide Offset2D, Size, Log2, Pow2;
    LayoutIsMacro(t, w, h);
    var s := t.Layout(16 * h);
    PitchPositive(t, w, h);
    ElementOfLinear(s, t.pitch, b);
    RowBelow(s, b, 16 * h);
    var x, y, k := (b % s.pitch) / s.cpp, b / s.pitch, b % s.cpp;
    assert StoresElement(s, t.image, rows, x, y);
    var o, at := Offset2D(s, x, y), Linear(s, x, y);
    assert t.image[o..o + s.cpp][k] == rows[at..at + s.cpp][k];
  }
}
