/** The bit packer for item and weapon serials (`pack_item_values` and
    `unpack_item_values`). An item is a list of 17 slot values: set, type,
    balance, manufacturer, grade, game stage and eleven parts. Slot k takes
    a fixed number of bits, read from one of two width tables (row 0 for
    items, row 1 for weapons), and the slots are laid out least significant
    bit first into a little-endian byte string. */
module ItemSerial {
  import opened Results
  import opened PyInt
  import opened ByteStrings

  /** `is_weapon`: 0 for an item, 1 for a weapon. */
  type WeaponFlag = x: int | 0 <= x <= 1

  /** Number of slots in an item serial. */
  const SlotCount: nat := 17

  /** Size in bytes of the packing buffer (`bytearray(32)`). */
  const BufferSize: nat := 32

  /** The bit width of every slot (`item_sizes`), row 0 for items, row 1 for weapons. */
  function ItemSizes(w: WeaponFlag): (sizes: seq<nat>)
    ensures |sizes| == SlotCount
    ensures forall k :: 0 <= k < |sizes| ==> 7 <= sizes[k] <= 20
  {
    if w == 0 then [8, 17, 20, 11, 7, 7, 16, 16, 16, 16, 16, 16, 16, 16, 16, 16, 16]
    else [8, 13, 20, 11, 7, 7, 17, 17, 17, 17, 17, 17, 17, 17, 17, 17, 17]
  }

  /** The bit at which slot k starts: the widths of the slots before it, added up. */
  function Offset(sizes: seq<nat>, k: nat): nat
    requires k <= |sizes|
  {
    if k == 0 then 0 else Offset(sizes, k - 1) + sizes[k - 1]
  }

  /** The full width of a serial's slots. */
  function TotalBits(w: WeaponFlag): nat
  {
    Offset(ItemSizes(w), SlotCount)
  }

  /** Offsets grow with the slot index. */
  lemma {:induction false} OffsetMonotone(sizes: seq<nat>, a: nat, b: nat)
    requires a <= b <= |sizes|
    ensures Offset(sizes, a) <= Offset(sizes, b)
    decreases b
  {
    if a < b {
      OffsetMonotone(sizes, a, b - 1);
    }
  }

  /** Slots a to b - 1 all c bits wide take (b - a) * c bits. */
  lemma {:induction false} OffsetConstant(sizes: seq<nat>, a: nat, b: nat, c: nat)
    requires a <= b <= |sizes|
    requires forall k :: a <= k < b ==> sizes[k] == c
    ensures Offset(sizes, b) == Offset(sizes, a) + (b - a) * c
    decreases b
  {
    if a < b {
      OffsetConstant(sizes, a, b - 1, c);
      assert sizes[b - 1] == c;
      MulDistributes(b - 1 - a, 1, c);
    }
  }

  /** All slots of an item take 246 bits and all slots of a weapon 253; both fit the
      256 bits of the packing buffer. */
  lemma TotalBitsValues(w: WeaponFlag)
    ensures TotalBits(w) == if w == 0 then 246 else 253
    ensures TotalBits(w) <= 8 * BufferSize
  {
    var s := ItemSizes(w);
    if w == 0 {
      assert Offset(s, 1) == 8;
      assert Offset(s, 2) == 25;
      assert Offset(s, 3) == 45;
      assert Offset(s, 4) == 56;
      assert Offset(s, 5) == 63;
      assert Offset(s, 6) == 70;
      OffsetConstant(s, 6, 17, 16);
    } else {
      assert Offset(s, 1) == 8;
      assert Offset(s, 2) == 21;
      assert Offset(s, 3) == 41;
      assert Offset(s, 4) == 52;
      assert Offset(s, 5) == 59;
      assert Offset(s, 6) == 66;
      OffsetConstant(s, 6, 17, 17);
    }
  }

  /** Every slot offset of either size table lies within the 253 bits of a weapon. */
  lemma OffsetBelowBuffer(w: WeaponFlag, k: nat)
    requires k <= SlotCount
    ensures Offset(ItemSizes(w), k) <= 253
  {
    OffsetMonotone(ItemSizes(w), k, SlotCount);
    TotalBitsValues(w);
  }

  // ---------------------------------------------------------------------
  // Packing

  /** How many slots `pack_item_values` writes: `zip` stops at the shorter of the
      value list and the width table, and the loop stops at the first `None`. */
  function PackedCount(values: seq<Option<int>>, sizes: seq<nat>): (n: nat)
    ensures n <= |values| && n <= |sizes|
    ensures forall k :: 0 <= k < n ==> values[k].Some?
    ensures n < |values| && n < |sizes| ==> values[n].None?
  {
    if |values| == 0 || |sizes| == 0 || values[0].None? then 0
    else 1 + PackedCount(values[1..], sizes[1..])
  }

  /** The integer the buffer holds once the first k slots are written: each value
      ORed in at its slot's offset. */
  function Accumulated(values: seq<Option<nat>>, sizes: seq<nat>, k: nat): nat
    requires k <= PackedCount(values, sizes)
  {
    if k == 0 then 0
    else Or(Accumulated(values, sizes, k - 1), Shl(values[k - 1].value, Offset(sizes, k - 1)))
  }

  /** None of the first k values reaches past the end of the 32-byte buffer. */
  predicate FitsBuffer(values: seq<Option<nat>>, sizes: seq<nat>, k: nat)
    requires k <= PackedCount(values, sizes)
  {
    forall t :: 0 <= t < k ==> Shl(values[t].value, Offset(sizes, t)) < Pow2(8 * BufferSize)
  }

  /** The number of bytes a serial of i bits occupies: the fewest whole bytes
      that hold i bits. */
  function ByteLength(i: nat): (r: nat)
    ensures i <= 8 * r < i + 8
  {
    (i + 7) / 8
  }

  /** The bits from i up to the next byte boundary, all set. */
  function PadBits(i: nat): nat
  {
    Shl(Pow2(8 * ByteLength(i) - i) - 1, i)
  }

  /** The bytes holding the first i bits of acc, the unused bits of the last byte
      set. */
  function Padded(acc: nat, i: nat): (r: seq<Byte>)
    ensures |r| == ByteLength(i)
  {
    LeBytes(Or(acc, PadBits(i)), ByteLength(i))
  }

  /** What `pack_item_values` returns for the size table `sizes`: the slots before
      the first `None`, packed and padded with one bits to a whole byte; or the
      `IndexError` raised when a value runs past the 32-byte buffer. */
  function PackWith(sizes: seq<nat>, values: seq<Option<nat>>): (r: Result<seq<Byte>>)
    ensures r.Success? ==> |r.value| == ByteLength(Offset(sizes, PackedCount(values, sizes)))
  {
    var n := PackedCount(values, sizes);
    if !FitsBuffer(values, sizes, n) then Failure(IndexOutOfRange)
    else
      var i := Offset(sizes, n);
      Success(Padded(Accumulated(values, sizes, n), i))
  }

  /** What `pack_item_values` returns for a weapon flag: packing with that flag's
      size table. */
  function Pack(w: WeaponFlag, values: seq<Option<nat>>): (r: Result<seq<Byte>>)
    ensures r.Success? ==> |r.value| == ByteLength(Offset(ItemSizes(w), PackedCount(values, ItemSizes(w))))
  {
    PackWith(ItemSizes(w), values)
  }

  /** `item_sizes[is_weapon]`: the row of the width tables a flag selects, with
      Python's indexing of a two-row tuple (-1 and -2 count from the end). Any
      other flag raises IndexError. */
  function TableRow(isWeapon: int): (r: Result<WeaponFlag>)
    ensures r.Success? <==> -2 <= isWeapon <= 1
    ensures r.Success? ==> r.value == isWeapon % 2
    ensures r.Failure? ==> r.error == IndexOutOfRange
  {
    if 0 <= isWeapon <= 1 then Success(isWeapon)
    else if -2 <= isWeapon < 0 then Success(isWeapon + 2)
    else Failure(IndexOutOfRange)
  }

  /** Some value `pack_item_values` packs, before the first `None`, is negative. */
  predicate NegativePacked(values: seq<Option<int>>, sizes: seq<nat>)
  {
    exists k :: 0 <= k < PackedCount(values, sizes) && values[k].value < 0
  }

  /** The slot values with every negative value replaced by 0 and `None` kept. */
  function Naturals(values: seq<Option<int>>): (r: seq<Option<nat>>)
    ensures |r| == |values|
    ensures forall k :: 0 <= k < |values| ==> (r[k].None? <==> values[k].None?)
    ensures forall k :: 0 <= k < |values| && values[k].Some? && values[k].value >= 0 ==> r[k].value == values[k].value
  {
    seq(|values|, k requires 0 <= k < |values| =>
      if values[k].None? then None else Some(if values[k].value < 0 then 0 else values[k].value))
  }

  /** What `pack_item_values` returns for the size table `sizes` and any integer
      slot values. A negative value stays negative under `>> 8`, so its inner loop
      runs until it indexes past the 32-byte buffer and raises IndexError;
      otherwise the result is `PackWith`. */
  function PackInts(sizes: seq<nat>, values: seq<Option<int>>): (r: Result<seq<Byte>>)
  {
    if NegativePacked(values, sizes) then Failure(IndexOutOfRange)
    else PackWith(sizes, Naturals(values))
  }

  /** What `pack_item_values(is_weapon, values)` returns: the flag selects the size
      table, then the values are packed. */
  function PackItem(isWeapon: int, values: seq<Option<int>>): (r: Result<seq<Byte>>)
  {
    var row :- TableRow(isWeapon);
    PackInts(ItemSizes(row), values)
  }

  /** Replacing negative values changes nothing about where packing stops. */
  lemma NaturalsPackedCount(values: seq<Option<int>>, sizes: seq<nat>)
    ensures PackedCount(Naturals(values), sizes) == PackedCount(values, sizes)
  {
    PackedCountIs(Naturals(values), sizes, PackedCount(values, sizes));
  }

  /** Slot values that are all nonnegative are their own `Naturals`. */
  lemma NaturalsOfNat(values: seq<Option<nat>>)
    ensures Naturals(values) == values
  {
    var r := Naturals(values);
    forall k | 0 <= k < |values|
      ensures r[k] == values[k]
    {
    }
  }

  /** On a valid flag and nonnegative values, `pack_item_values` is `Pack`. */
  lemma PackItemOfNat(w: WeaponFlag, values: seq<Option<nat>>)
    ensures PackItem(w, values) == Pack(w, values)
  {
    NaturalsOfNat(values);
  }

  /** `pack_item_values` fails only with IndexError. It fails whenever the flag
      selects no row or a packed value is negative; otherwise it packs the values
      with the row the flag selects. */
  lemma PackItemOutcome(isWeapon: int, values: seq<Option<int>>)
    ensures PackItem(isWeapon, values).Failure? ==> PackItem(isWeapon, values).error == IndexOutOfRange
    ensures !(-2 <= isWeapon <= 1) ==> PackItem(isWeapon, values) == Failure(IndexOutOfRange)
    ensures (-2 <= isWeapon <= 1 && NegativePacked(values, ItemSizes(isWeapon % 2)))
      ==> PackItem(isWeapon, values) == Failure(IndexOutOfRange)
    ensures (-2 <= isWeapon <= 1 && !NegativePacked(values, ItemSizes(isWeapon % 2)))
      ==> PackItem(isWeapon, values) == Pack(isWeapon % 2, Naturals(values))
  {
  }

  /** A negative value anywhere before the first `None` makes packing fail. */
  lemma PackSlotNegative(sizes: seq<nat>, values: seq<Option<int>>, k: nat)
    requires k < PackedCount(values, sizes) && values[k].value < 0
    ensures PackInts(sizes, values) == Failure(IndexOutOfRange)
  {
    assert NegativePacked(values, sizes);
  }

  /** Shifting x right by whole bytes leaves nothing exactly when x, placed at byte
      j0, lies below byte j. */
  lemma ShiftedBelow(x: nat, j0: nat, j: nat)
    requires j0 <= j
    ensures Shr(x, 8 * (j - j0)) == 0 <==> Shl(x, 8 * j0) < Pow2(8 * j)
  {
    DivZeroIff(x, Pow2(8 * (j - j0)));
    MulPow2Less(x, 8 * (j - j0), 8 * j0);
  }

  /** One step of the inner packing loop, `item_bytes[j] |= value & 0xFF;
      value >>= 8; j += 1`: the OR of the buffer and the value still to be written
      (placed at byte j) stays what it was. */
  lemma PackByteStep(s: seq<Byte>, j: nat, rest: nat, target: nat)
    requires j < |s|
    requires Or(LeValue(s), Shl(rest, 8 * j)) == target
    ensures Or(LeValue(s[j := OrByte(s[j], LowByte(rest))]), Shl(Shr(rest, 8), 8 * (j + 1))) == target
  {
    var low := LowByte(rest);
    var t := s[j := OrByte(s[j], low)];
    var e := 8 * (j + 1);
    var hi := Shr(rest, 8);
    var a, b, c := LeValue(s), Shl(low, 8 * j), Shl(hi, e);
    LeValueOrByte(s, j, low);
    OrAssociates(a, b, c);
    ShlLowHigh(rest, low, hi, 8, 8 * j, e);
    assert Or(b, c) == Shl(rest, 8 * j);
    assert Or(LeValue(t), c) == target;
  }

  /** What is left of the value after t + 1 bytes, which is less than after t. */
  lemma NextByte(value: nat, rest: nat, t: nat)
    requires rest == Shr(value, 8 * t) && rest != 0
    ensures Shr(rest, 8) == Shr(value, 8 * (t + 1)) && Shr(rest, 8) < rest
  {
    ShrShr(value, 8 * t, 8);
    Pow2Byte();
  }

  /** The byte the source ORs in after the loop, `(0xFF << (i & 7)) & 0xFF` at index
      `i >> 3`, is the padding of a serial of i bits. */
  lemma PaddingByte(i: nat)
    ensures i % 8 == 0 ==> PadBits(i) == 0
    ensures i % 8 != 0 ==> Shl(Low(Shl(255, i % 8), 8), 8 * (i / 8)) == PadBits(i)
  {
    if i % 8 == 0 {
      assert 8 * ByteLength(i) - i == 0;
      MulDistributes(0, Pow2(i), 0);
    } else {
      PaddingByteInside(i, i % 8, i / 8);
    }
  }

  /** PaddingByte for i = 8 * q + r with 0 < r < 8: the pad byte is the high
      8 - r bits of byte q. */
  lemma PaddingByteInside(i: nat, r: nat, q: nat)
    requires 0 < r < 8 && i == r + 8 * q
    ensures Shl(Low(Shl(255, r), 8), 8 * q) == PadBits(i)
  {
    assert ByteLength(i) == q + 1;
    var p, v, m := Pow2(r), Pow2(8 - r), Pow2(8 * q);
    var u := v - 1;
    Pow2Byte();
    assert p * v == 256 by {
      Pow2Add(r, 8 - r);
      assert r + (8 - r) == 8;
    }
    Pow2Monotone(r, 8);
    var low := 256 - p;
    assert Shl(255, r) == low + 256 * (p - 1) by { MulDistributes(256, 1, p); }
    DivModUnique(Shl(255, r), 256, p - 1, low);
    assert low == p * u by { MulDistributes(v, 1, p); }
    Pow2Add(r, 8 * q);
    assert 8 * ByteLength(i) - i == 8 - r;
    assert PadBits(i) == u * Pow2(i);
    MulDistributes(p, u, m);
    MulDistributes(u, p, m);
  }

  /** The buffer after t rounds of the inner loop of `pack_item_values`, which ORs
      the low byte of what is left of `value` into byte j + t - 1 in round t. */
  ghost function ByteRounds(s: seq<Byte>, value: nat, j: nat, t: nat): (r: seq<Byte>)
    ensures |r| == |s|
    decreases t
  {
    if t == 0 then s
    else
      var prev := ByteRounds(s, value, j, t - 1);
      var b := j + t - 1;
      if b < |prev| then prev[b := OrByte(prev[b], LowByte(Shr(value, 8 * (t - 1))))] else prev
  }

  /** After t rounds, the buffer ORed with what is left of the value (placed at
      byte j + t) is the buffer ORed with the whole value placed at byte j. */
  lemma {:induction false} ByteRoundsValue(s: seq<Byte>, value: nat, j: nat, t: nat, target: nat)
    requires j + t <= |s| && target == Or(LeValue(s), Shl(value, 8 * j))
    ensures Or(LeValue(ByteRounds(s, value, j, t)), Shl(Shr(value, 8 * t), 8 * (j + t))) == target
    decreases t
  {
    if t == 0 {
      NoByteRounds(s, value, j, target);
    } else {
      ByteRoundsValue(s, value, j, t - 1, target);
      var rest, pos := Shr(value, 8 * (t - 1)), 8 * (j + (t - 1));
      var prev := ByteRounds(s, value, j, t - 1);
      assert Or(LeValue(prev), Shl(rest, pos)) == target;
      ByteRound(s, value, j, t, target);
    }
  }

  /** Before the first round nothing of the value is written. */
  lemma NoByteRounds(s: seq<Byte>, value: nat, j: nat, target: nat)
    requires target == Or(LeValue(s), Shl(value, 8 * j))
    ensures Or(LeValue(ByteRounds(s, value, j, 0)), Shl(Shr(value, 8 * 0), 8 * (j + 0))) == target
  {
    ShrZero(value);
  }

  /** Round t of `ByteRounds` keeps the OR of the buffer and what is left of the value. */
  lemma ByteRound(s: seq<Byte>, value: nat, j: nat, t: nat, target: nat)
    requires 0 < t && j + t <= |s|
    requires Or(LeValue(ByteRounds(s, value, j, t - 1)), Shl(Shr(value, 8 * (t - 1)), 8 * (j + (t - 1)))) == target
    ensures Or(LeValue(ByteRounds(s, value, j, t)), Shl(Shr(value, 8 * t), 8 * (j + t))) == target
  {
    var prev, b, done := ByteRounds(s, value, j, t - 1), j + t - 1, 8 * (t - 1);
    var cur := ByteRounds(s, value, j, t);
    assert cur == prev[b := OrByte(prev[b], LowByte(Shr(value, done)))];
    ByteRoundStep(prev, value, b, done, target, cur, 8 * t, 8 * (j + t));
  }

  /** One round of `ByteRounds`, with `prev` the buffer before it, b the byte it
      writes, `done` the bits of the value already written and `cur` the buffer
      after it. */
  lemma ByteRoundStep(prev: seq<Byte>, value: nat, b: nat, done: nat, target: nat, cur: seq<Byte>, d: nat, e: nat)
    requires b < |prev| && cur == prev[b := OrByte(prev[b], LowByte(Shr(value, done)))]
    requires d == done + 8 && e == 8 * (b + 1)
    requires Or(LeValue(prev), Shl(Shr(value, done), 8 * b)) == target
    ensures Or(LeValue(cur), Shl(Shr(value, d), e)) == target
  {
    PackByteStep(prev, b, Shr(value, done), target);
    ShrShr(value, done, 8);
  }

  /** The inner loop stops with nothing left of the value: the value, placed at
      byte j, fit in the buffer, and the buffer holds it ORed in. */
  lemma OrIntoDone(s: seq<Byte>, value: nat, j: nat, t: nat)
    requires |s| == BufferSize && j + t <= BufferSize && Shr(value, 8 * t) == 0
    ensures Shl(value, 8 * j) < Pow2(8 * BufferSize)
    ensures LeValue(ByteRounds(s, value, j, t)) == Or(LeValue(s), Shl(value, 8 * j))
  {
    ByteRoundsValue(s, value, j, t, Or(LeValue(s), Shl(value, 8 * j)));
    OrZero(LeValue(ByteRounds(s, value, j, t)));
    ShiftedBelow(value, j, j + t);
    Pow2Monotone(8 * (j + t), 8 * BufferSize);
  }

  /** The inner loop reaches the end of the buffer with something of the value
      left: the value, placed at byte j, does not fit. */
  lemma OrIntoOverflows(value: nat, j: nat, t: nat)
    requires j + t == BufferSize && Shr(value, 8 * t) != 0
    ensures Shl(value, 8 * j) >= Pow2(8 * BufferSize)
  {
    ShiftedBelow(value, j, j + t);
  }

  /** Python's `value & 0xFF` and `value >> 8` on a nonnegative value are its low
      byte and `Shr(value, 8)`. */
  lemma ByteAndRest(rest: nat)
    ensures rest % 256 == LowByte(rest) && rest / 256 == Shr(rest, 8)
  {
    Pow2Byte();
  }

  /** The inner loop of `pack_item_values`: `value` ORed into the buffer one byte at
      a time from byte j on (`item_bytes[j] |= value & 0xFF; value >>= 8; j += 1`).
      The result is false where the source raises IndexError, which happens exactly
      when the value, placed at byte j, reaches past the buffer, or when the value
      is negative: `>> 8` keeps a negative value negative, so the loop only ends
      by indexing past the buffer. */
  method OrInto(itemBytes: array<Byte>, value: int, j: nat) returns (ok: bool)
    requires itemBytes.Length == BufferSize && j <= BufferSize
    modifies itemBytes
    ensures ok <==> 0 <= value && Shl(value, 8 * j) < Pow2(8 * BufferSize)
    ensures ok ==> 0 <= value && LeValue(itemBytes[..]) == Or(old(LeValue(itemBytes[..])), Shl(value, 8 * j))
  {
    ghost var s := itemBytes[..];
    var rest := value;
    var b := j;
    ghost var t := 0;
    if value >= 0 {
      ShrZero(value);
    }
    while rest != 0
      invariant b == j + t && b <= BufferSize
      invariant value < 0 ==> rest < 0
      invariant value >= 0 ==> rest >= 0 && rest == Shr(value, 8 * t)
      invariant value >= 0 ==> itemBytes[..] == ByteRounds(s, value, j, t)
      decreases if rest >= 0 then rest else 0, BufferSize - b
    {
      if b >= BufferSize {
        if value >= 0 {
          OrIntoOverflows(value, j, t);
        }
        return false;
      }
      if value >= 0 {
        NextByte(value, rest, t);
        ByteAndRest(rest);
      }
      itemBytes[b] := OrByte(itemBytes[b], rest % 256);
      rest := rest / 256;
      b := b + 1;
      t := t + 1;
    }
    OrIntoDone(s, value, j, t);
    return true;
  }

  /** `value << (i & 7)`, written from byte `i >> 3` on, is `value << i`. */
  lemma ShiftInTwoSteps(v: nat, i: nat)
    ensures Shl(Shl(v, i % 8), 8 * (i / 8)) == Shl(v, i)
  {
    ShlShl(v, i % 8, 8 * (i / 8));
    assert i % 8 + 8 * (i / 8) == i;
  }

  /** One slot written by `pack_item_values`: ORing the slot's value in at its offset
      extends the accumulated value and the fit by one slot. */
  lemma PackSlotStep(values: seq<Option<nat>>, sizes: seq<nat>, k: nat, i: nat, before: nat, after: nat)
    requires k < PackedCount(values, sizes) && i == Offset(sizes, k)
    requires before == Accumulated(values, sizes, k) && FitsBuffer(values, sizes, k)
    requires Shl(Shl(values[k].value, i % 8), 8 * (i / 8)) < Pow2(8 * BufferSize)
    requires after == Or(before, Shl(Shl(values[k].value, i % 8), 8 * (i / 8)))
    ensures after == Accumulated(values, sizes, k + 1) && FitsBuffer(values, sizes, k + 1)
    ensures i + sizes[k] == Offset(sizes, k + 1)
  {
    ShiftInTwoSteps(values[k].value, i);
  }

  /** A slot that reaches past the buffer makes the whole packing fail. */
  lemma PackSlotOverflows(sizes: seq<nat>, values: seq<Option<nat>>, k: nat, i: nat)
    requires k < PackedCount(values, sizes) && i == Offset(sizes, k)
    requires Shl(Shl(values[k].value, i % 8), 8 * (i / 8)) >= Pow2(8 * BufferSize)
    ensures PackWith(sizes, values) == Failure(IndexOutOfRange)
  {
    var n := PackedCount(values, sizes);
    ShiftInTwoSteps(values[k].value, i);
    assert Shl(values[k].value, Offset(sizes, k)) >= Pow2(8 * BufferSize);
    assert !FitsBuffer(values, sizes, n);
  }

  /** Setting the pad byte ORs the padding into the buffer's value. */
  lemma PadStep(s: seq<Byte>, i: nat)
    requires |s| == BufferSize && i <= 253 && i % 8 != 0
    ensures LeValue(s[i / 8 := OrByte(s[i / 8], LowByte(Shl(255, i % 8)))]) == Or(LeValue(s), PadBits(i))
  {
    LeValueOrByte(s, i / 8, LowByte(Shl(255, i % 8)));
    PaddingByte(i);
  }

  /** The bytes the buffer holds once every slot and the padding are written are the
      packed serial. */
  lemma PackResult(sizes: seq<nat>, values: seq<Option<nat>>, s: seq<Byte>, k: nat, i: nat, acc: nat)
    requires |s| == BufferSize && k == PackedCount(values, sizes) && i <= 253
    requires i == Offset(sizes, k) && FitsBuffer(values, sizes, k)
    requires acc == Accumulated(values, sizes, k) && LeValue(s) == Or(acc, PadBits(i))
    ensures ByteLength(i) <= BufferSize && PackWith(sizes, values) == Success(s[..ByteLength(i)])
  {
    LeBytesOfLeValue(s, ByteLength(i));
  }

  /** The source's final step: the unused high bits of the last used byte are set,
      which ORs the padding into the buffer's value. */
  method SetPadding(itemBytes: array<Byte>, i: nat)
    requires itemBytes.Length == BufferSize && i <= 253
    modifies itemBytes
    ensures LeValue(itemBytes[..]) == Or(old(LeValue(itemBytes[..])), PadBits(i))
  {
    PaddingByte(i);
    if i % 8 != 0 {
      PadStep(itemBytes[..], i);
      itemBytes[i / 8] := OrByte(itemBytes[i / 8], LowByte(Shl(255, i % 8)));
    } else {
      OrZero(LeValue(itemBytes[..]));
    }
  }

  /** One round of the packing loop: slot k's value, shifted to bit i, ORed into the
      buffer; or, when it is negative or reaches past the buffer, the failure of the
      whole packing. `nv` is `Naturals(values)`, the values as the packed integer
      sees them. */
  method WriteSlot(itemBytes: array<Byte>, sizes: seq<nat>, values: seq<Option<int>>,
                   ghost nv: seq<Option<nat>>, k: nat, i: nat)
      returns (ok: bool)
    requires itemBytes.Length == BufferSize && Offset(sizes, |sizes|) <= 253
    requires nv == Naturals(values) && PackedCount(nv, sizes) == PackedCount(values, sizes)
    requires k < PackedCount(values, sizes) && i == Offset(sizes, k)
    requires LeValue(itemBytes[..]) == Accumulated(nv, sizes, k) && FitsBuffer(nv, sizes, k)
    modifies itemBytes
    ensures !ok ==> PackInts(sizes, values) == Failure(IndexOutOfRange)
    ensures ok ==> values[k].value >= 0
    ensures ok ==> LeValue(itemBytes[..]) == Accumulated(nv, sizes, k + 1) && FitsBuffer(nv, sizes, k + 1)
    ensures i + sizes[k] == Offset(sizes, k + 1)
  {
    OffsetMonotone(sizes, k, |sizes|);
    ghost var before := LeValue(itemBytes[..]);
    ok := OrInto(itemBytes, ShlInt(values[k].value, i % 8), i / 8);
    if !ok {
      if values[k].value < 0 {
        PackSlotNegative(sizes, values, k);
      } else {
        PackSlotOverflows(sizes, nv, k, i);
      }
    } else {
      PackSlotStep(nv, sizes, k, i, before, LeValue(itemBytes[..]));
    }
  }

  /** None of the first k values is negative. */
  predicate NonNegativePrefix(values: seq<Option<int>>, k: nat)
  {
    forall t :: 0 <= t < k && t < |values| && values[t].Some? ==> values[t].value >= 0
  }

  /** A nonnegative value extends a nonnegative prefix. */
  lemma NonNegativeExtend(values: seq<Option<int>>, k: nat)
    requires NonNegativePrefix(values, k) && k < |values| && values[k].Some? && values[k].value >= 0
    ensures NonNegativePrefix(values, k + 1)
  {
  }

  /** With no negative value before the first `None`, packing is `PackWith` on
      the values. */
  lemma PackIntsOfNonNegative(sizes: seq<nat>, values: seq<Option<int>>)
    requires NonNegativePrefix(values, PackedCount(values, sizes))
    ensures PackInts(sizes, values) == PackWith(sizes, Naturals(values))
  {
  }

  /** `pack_item_values` over the size table `sizes`: each value is shifted to its
      bit offset and ORed into a 32-byte buffer; then the last byte's unused high
      bits are set and the used bytes returned. */
  method PackSlots(sizes: seq<nat>, values: seq<Option<int>>) returns (r: Result<seq<Byte>>)
    requires Offset(sizes, |sizes|) <= 253
    ensures r == PackInts(sizes, values)
  {
    ghost var nv := Naturals(values);
    NaturalsPackedCount(values, sizes);
    ghost var n := PackedCount(values, sizes);
    var itemBytes := new Byte[BufferSize](_ => 0);
    LeValueZero(itemBytes[..]);
    var i := 0;
    var k := 0;
    while k < |values| && k < |sizes| && values[k].Some?
      invariant 0 <= k <= n
      invariant i == Offset(sizes, k)
      invariant LeValue(itemBytes[..]) == Accumulated(nv, sizes, k)
      invariant FitsBuffer(nv, sizes, k)
      invariant NonNegativePrefix(values, k)
    {
      assert k < n;
      var ok := WriteSlot(itemBytes, sizes, values, nv, k, i);
      if !ok {
        return Failure(IndexOutOfRange);
      }
      NonNegativeExtend(values, k);
      i := i + sizes[k];
      k := k + 1;
    }
    r := FinishPacking(itemBytes, sizes, values, nv, k, i);
  }

  /** The end of `pack_item_values`, once every slot is written: the padding, then
      the used bytes of the buffer. */
  method FinishPacking(itemBytes: array<Byte>, sizes: seq<nat>, values: seq<Option<int>>,
                       ghost nv: seq<Option<nat>>, k: nat, i: nat)
      returns (r: Result<seq<Byte>>)
    requires itemBytes.Length == BufferSize && Offset(sizes, |sizes|) <= 253
    requires nv == Naturals(values) && PackedCount(nv, sizes) == PackedCount(values, sizes)
    requires k == PackedCount(values, sizes) && i == Offset(sizes, k) && NonNegativePrefix(values, k)
    requires LeValue(itemBytes[..]) == Accumulated(nv, sizes, k) && FitsBuffer(nv, sizes, k)
    modifies itemBytes
    ensures r == PackInts(sizes, values)
  {
    OffsetMonotone(sizes, k, |sizes|);
    PackIntsOfNonNegative(sizes, values);
    ghost var acc := LeValue(itemBytes[..]);
    SetPadding(itemBytes, i);
    PackResult(sizes, nv, itemBytes[..], k, i, acc);
    r := Success(itemBytes[..ByteLength(i)]);
  }

  /** `pack_item_values(is_weapon, values)`: the flag's row of the size table
      (IndexError for a flag that selects none), then the packing loop. */
  method PackItemValues(isWeapon: int, values: seq<Option<int>>) returns (r: Result<seq<Byte>>)
    ensures r == PackItem(isWeapon, values)
  {
    var row := TableRow(isWeapon);
    if row.Failure? {
      return Failure(row.error);
    }
    OffsetBelowBuffer(row.value, SlotCount);
    r := PackSlots(ItemSizes(row.value), values);
  }

  // ---------------------------------------------------------------------
  // Unpacking

  /** The slots from k on, read from the integer x that holds `total` bits, the next
      slot starting at bit pos. A slot that would end past `total` reads as `None`
      and does not advance the position. */
  function UnpackFrom(sizes: seq<nat>, k: nat, pos: nat, total: nat, x: nat): (r: seq<Option<nat>>)
    requires k <= |sizes|
    ensures |r| == |sizes| - k
    decreases |sizes| - k
  {
    if k == |sizes| then []
    else if pos + sizes[k] > total then [None] + UnpackFrom(sizes, k + 1, pos, total, x)
    else [Some(Low(Shr(x, pos), sizes[k]))] + UnpackFrom(sizes, k + 1, pos + sizes[k], total, x)
  }

  /** What `unpack_item_values` returns: one entry per slot, each slot's bits read from
      the little-endian value of the data. */
  function Unpack(w: WeaponFlag, data: seq<Byte>): (r: seq<Option<nat>>)
    ensures |r| == SlotCount
  {
    UnpackFrom(ItemSizes(w), 0, 0, 8 * |data|, LeValue(data))
  }

  /** Every value an unpacking reads fits its slot's width. */
  lemma {:induction false} UnpackFromInRange(sizes: seq<nat>, k: nat, pos: nat, total: nat, x: nat)
    requires k <= |sizes|
    ensures forall t :: 0 <= t < |sizes| - k && UnpackFrom(sizes, k, pos, total, x)[t].Some?
              ==> UnpackFrom(sizes, k, pos, total, x)[t].value < Pow2(sizes[k + t])
    decreases |sizes| - k
  {
    if k < |sizes| {
      if pos + sizes[k] > total {
        UnpackFromInRange(sizes, k + 1, pos, total, x);
      } else {
        UnpackFromInRange(sizes, k + 1, pos + sizes[k], total, x);
      }
    }
  }

  /** Every slot `unpack_item_values` reads fits the slot's width. */
  lemma UnpackInRange(w: WeaponFlag, data: seq<Byte>)
    ensures forall k :: 0 <= k < SlotCount && Unpack(w, data)[k].Some?
              ==> Unpack(w, data)[k].value < Pow2(ItemSizes(w)[k])
  {
    UnpackFromInRange(ItemSizes(w), 0, 0, 8 * |data|, LeValue(data));
  }

  /** `(value << 8) | b` on a byte b is `b + 256 * value`. */
  lemma OrBelowByte(value: nat, b: Byte)
    ensures Or(Shl(value, 8), b) == b + 256 * value
  {
    Pow2Byte();
    OrCommutes(Shl(value, 8), b);
    OrDisjoint(b, value, 8);
  }

  /** Dropping the first lo bytes of a string shifts its value right by 8 * lo bits. */
  lemma ShrPrefix(s: seq<Byte>, lo: nat)
    requires lo <= |s|
    ensures Shr(LeValue(s), 8 * lo) == LeValue(s[lo..])
  {
    var a, b := s[..lo], s[lo..];
    assert s == a + b && |a| == lo;
    LeValueAppend(a, b);
    DivBelow(LeValue(s), LeValue(a), Pow2(8 * lo), LeValue(b));
  }

  /** Masking with `~(0xFF << size)` a value of at most size + 8 bits, read from the
      low bits of a longer value x, gives x's low size bits. */
  lemma MaskedRead(low: nat, high: nat, r: nat, e: nat, size: nat, x: nat)
    requires low < Pow2(r + e) && size <= e <= size + 8 && x == low + Pow2(r + e) * high
    ensures AndNot(Shr(low, r), Shl(255, size)) == Low(Shr(x, r), size)
  {
    var y := Shr(low, r);
    DivPow2Less(low, r, e);
    Pow2Monotone(e, size + 8);
    AndNotByteMask(y, size);
    MulNonneg(Pow2(e), high);
    var z: nat := y + Pow2(e) * high;
    ShrAddHigh(low, high, r, e, x, z);
    LowAddHigh(y, high, size, e, z);
  }

  /** Shifting right by r past a multiple of 2^(r + e) leaves a multiple of 2^e. */
  lemma ShrAddHigh(low: nat, high: nat, r: nat, e: nat, x: nat, z: nat)
    requires x == low + Pow2(r + e) * high && z == Shr(low, r) + Pow2(e) * high
    ensures Shr(x, r) == z
  {
    MulNonneg(Pow2(e), high);
    var q: nat := Pow2(e) * high;
    Pow2Add(r, e);
    MulDistributes(Pow2(r), Pow2(e), high);
    DivModAddMultiple(low, Pow2(r), q);
  }

  /** Adding a multiple of 2^e leaves the bits below e alone. */
  lemma LowAddHigh(y: nat, high: nat, size: nat, e: nat, z: nat)
    requires size <= e && z == y + Pow2(e) * high
    ensures Low(z, size) == Low(y, size)
  {
    MulNonneg(Pow2(e - size), high);
    var q: nat := Pow2(e - size) * high;
    Pow2Add(size, e - size);
    MulDistributes(Pow2(size), Pow2(e - size), high);
    DivModAddMultiple(y, Pow2(size), q);
  }

  /** The slice of a slot read starts at byte `i >> 3` and ends at byte top, which
      holds the slot's last bit; so it spans more than size bits past bit i and less
      than size + 8 more. */
  lemma SliceBounds(i: nat, size: nat, len: nat, top: nat)
    requires i + size <= 8 * len
    requires top == if (i + size) / 8 < len then (i + size) / 8 else len - 1
    ensures i / 8 <= top + 1 <= len
    ensures size <= 8 * (top + 1 - i / 8) - i % 8 <= size + 8
  {
  }

  /** The value of s from byte lo on, split at byte c, which lies r + e bits further. */
  lemma SliceSplit(s: seq<Byte>, lo: nat, c: nat, r: nat, e: nat)
    requires lo <= c <= |s| && r + e == 8 * (c - lo)
    ensures LeValue(s[lo..c]) < Pow2(r + e)
    ensures Shr(LeValue(s), 8 * lo) == LeValue(s[lo..c]) + Pow2(r + e) * LeValue(s[c..])
  {
    assert s[lo..] == s[lo..c] + s[c..];
    LeValueAppend(s[lo..c], s[c..]);
    ShrPrefix(s, lo);
  }

  /** MaskedRead for a value x whose bits from byte lo on are low + 2^(r + e) * high;
      the read starts at bit i = 8 * lo + r of x. */
  lemma ReadShiftedBits(x: nat, low: nat, high: nat, i: nat, lo: nat, r: nat, e: nat, size: nat)
    requires low < Pow2(r + e) && size <= e <= size + 8 && i == 8 * lo + r
    requires Shr(x, 8 * lo) == low + Pow2(r + e) * high
    ensures AndNot(Shr(low, r), Shl(255, size)) == Low(Shr(x, i), size)
  {
    MaskedRead(low, high, r, e, size, Shr(x, 8 * lo));
    ShrShr(x, 8 * lo, r);
  }

  /** The bits from i = 8 * lo + r on, size of them, read through the bytes lo to
      c - 1 of s, which cover at least size and at most size + 8 of those bits. */
  lemma ReadBits(s: seq<Byte>, i: nat, lo: nat, c: nat, r: nat, e: nat, size: nat)
    requires lo <= c <= |s| && r + e == 8 * (c - lo) && size <= e <= size + 8 && i == 8 * lo + r
    ensures AndNot(Shr(LeValue(s[lo..c]), r), Shl(255, size)) == Low(Shr(LeValue(s), i), size)
  {
    SliceSplit(s, lo, c, r, e);
    ReadShiftedBits(LeValue(s), LeValue(s[lo..c]), LeValue(s[c..]), i, lo, r, e, size);
  }

  /** The slot read of `unpack_item_values`: the bytes from `i >> 3` up to `j >> 3`
      (or to the last byte, where the slice end is clamped), shifted right by `i & 7`
      and masked, are the bits i to i + size of the whole string. */
  lemma SliceRead(s: seq<Byte>, i: nat, size: nat, top: nat)
    requires i + size <= 8 * |s|
    requires top == if (i + size) / 8 < |s| then (i + size) / 8 else |s| - 1
    ensures i / 8 <= top + 1 <= |s|
    ensures AndNot(Shr(LeValue(s[i / 8 .. top + 1]), i % 8), Shl(255, size))
         == Low(Shr(LeValue(s), i), size)
  {
    SliceBounds(i, size, |s|, top);
    ReadBits(s, i, i / 8, top + 1, i % 8, 8 * (top + 1 - i / 8) - i % 8, size);
  }

  /** With the pad byte `b' '` in front, bit i of the padded string is bit i - 8 of
      the data. */
  lemma PaddedShift(data: seq<Byte>, i: nat)
    requires i >= 8
    ensures Shr(LeValue([0x20] + data), i) == Shr(LeValue(data), i - 8)
  {
    var padded: seq<Byte> := [0x20] + data;
    assert padded[1..] == data;
    ShrPrefix(padded, 1);
    Pow2Byte();
    ShrShr(LeValue(padded), 8, i - 8);
  }

  /** One slot read of `unpack_item_values` from the padded data, which is the data
      with `b' '` in front: the bytes `padded[j >> 3 : (i >> 3) - 1 : -1]` folded
      as `value = (value << 8) | b`, then `(value >> (i & 7)) & ~(0xFF << size)`.
      The result is the size bits of the data from bit i - 8 on. */
  method ReadSlot(padded: seq<Byte>, i: nat, size: nat) returns (slot: nat)
    requires 8 <= i && i + size <= 8 * |padded| && padded[0] == 0x20
    ensures slot == Low(Shr(LeValue(padded[1..]), i - 8), size)
  {
    var j := i + size;
    var top := if j / 8 < |padded| then j / 8 else |padded| - 1;
    SliceBounds(i, size, |padded|, top);
    var value := 0;
    var t := top + 1;
    while t > i / 8
      invariant i / 8 <= t <= top + 1
      invariant value == LeValue(padded[t .. top + 1])
    {
      t := t - 1;
      FoldByte(padded, t, top, value);
      value := Or(Shl(value, 8), padded[t]);
    }
    SlotOfSlice(padded, i, size, top, value);
    slot := AndNot(Shr(value, i % 8), Shl(255, size));
  }

  /** One round of the slot read, `value = (value << 8) | b`: the value of the
      bytes t + 1 to top gains byte t below them. */
  lemma FoldByte(padded: seq<Byte>, t: nat, top: nat, value: nat)
    requires t <= top < |padded| && value == LeValue(padded[t + 1 .. top + 1])
    ensures Or(Shl(value, 8), padded[t]) == LeValue(padded[t .. top + 1])
  {
    OrBelowByte(value, padded[t]);
    assert padded[t .. top + 1][1..] == padded[t + 1 .. top + 1];
  }

  /** The end of the slot read: the bytes `i >> 3` to top, shifted and masked, are
      the size bits of the data from bit i - 8 on. */
  lemma SlotOfSlice(padded: seq<Byte>, i: nat, size: nat, top: nat, value: nat)
    requires 8 <= i && i + size <= 8 * |padded| && padded[0] == 0x20
    requires top == if (i + size) / 8 < |padded| then (i + size) / 8 else |padded| - 1
    requires i / 8 <= top + 1 <= |padded| && value == LeValue(padded[i / 8 .. top + 1])
    ensures AndNot(Shr(value, i % 8), Shl(255, size)) == Low(Shr(LeValue(padded[1..]), i - 8), size)
  {
    SliceRead(padded, i, size, top);
    assert padded == [0x20] + padded[1..];
    PaddedShift(padded[1..], i);
  }

  /** Sequence concatenation is associative. */
  lemma ConcatAssociates<T>(a: seq<T>, b: seq<T>, c: seq<T>)
    ensures a + (b + c) == (a + b) + c
  {
  }

  /** A slot that ends past the data reads as `None`, and the position stays. */
  lemma UnpackMissingSlot(sizes: seq<nat>, k: nat, pos: nat, total: nat, x: nat)
    requires k < |sizes| && pos + sizes[k] > total
    ensures UnpackFrom(sizes, k, pos, total, x) == [None] + UnpackFrom(sizes, k + 1, pos, total, x)
  {
  }

  /** A slot that fits reads as its bits, and the position moves past it. */
  lemma UnpackReadSlot(sizes: seq<nat>, k: nat, pos: nat, total: nat, x: nat, v: nat)
    requires k < |sizes| && pos + sizes[k] <= total && v == Low(Shr(x, pos), sizes[k])
    ensures UnpackFrom(sizes, k, pos, total, x) == [Some(v)] + UnpackFrom(sizes, k + 1, pos + sizes[k], total, x)
  {
  }

  /** A serial body split into its slot values, as `unpack_item_values` does it: a
      space byte is put in front, then each slot's bytes are read from the highest
      down and the slot's bits masked out; a slot that would end past the data reads
      as `None` and does not advance the position. */
  method UnpackItemValues(w: WeaponFlag, data: seq<Byte>) returns (result: seq<Option<nat>>)
    ensures result == Unpack(w, data)
  {
    result := UnpackSlots(ItemSizes(w), data);
  }

  /** The loop of `unpack_item_values` over one row of slot widths. */
  method UnpackSlots(sizes: seq<nat>, data: seq<Byte>) returns (result: seq<Option<nat>>)
    ensures result == UnpackFrom(sizes, 0, 0, 8 * |data|, LeValue(data))
  {
    ghost var x, total := LeValue(data), 8 * |data|;
    var i := 8;
    var padded: seq<Byte> := [0x20] + data;
    var end := |padded| * 8;
    assert padded[1..] == data;
    result := [];
    for k := 0 to |sizes|
      invariant 8 <= i
      invariant result + UnpackFrom(sizes, k, i - 8, total, x) == UnpackFrom(sizes, 0, 0, total, x)
    {
      var size := sizes[k];
      var j := i + size;
      ghost var rest := UnpackFrom(sizes, k + 1, i - 8, total, x);
      if j > end {
        UnpackMissingSlot(sizes, k, i - 8, total, x);
        ConcatAssociates(result, [None], rest);
        result := result + [None];
      } else {
        var value := ReadSlot(padded, i, size);
        UnpackReadSlot(sizes, k, i - 8, total, x, value);
        var slot := Some(value);
        rest := UnpackFrom(sizes, k + 1, i - 8 + size, total, x);
        ConcatAssociates(result, [slot], rest);
        result := result + [slot];
        i := j;
      }
    }
  }

  // ---------------------------------------------------------------------
  // Properties

  /** The first k values are all present and each fits its slot's width. */
  predicate SlotsFit(values: seq<Option<nat>>, sizes: seq<nat>, k: nat)
    requires k <= |values| && k <= |sizes|
  {
    forall t :: 0 <= t < k ==> values[t].Some? && values[t].value < Pow2(sizes[t])
  }

  /** A value list the packer takes without loss: at most 17 slots, all present,
      each within its slot's width. */
  predicate InRange(w: WeaponFlag, values: seq<Option<nat>>)
  {
    |values| <= SlotCount && SlotsFit(values, ItemSizes(w), |values|)
  }

  /** PackedCount is the index of the first `None`, or where the value list or the
      width table ends. */
  lemma {:induction false} PackedCountIs(values: seq<Option<int>>, sizes: seq<nat>, n: nat)
    requires n <= |values| && n <= |sizes|
    requires forall k :: 0 <= k < n ==> values[k].Some?
    requires n == |values| || n == |sizes| || values[n].None?
    ensures PackedCount(values, sizes) == n
    decreases n
  {
    if n > 0 {
      assert values[0].Some?;
      PackedCountIs(values[1..], sizes[1..], n - 1);
    }
  }

  /** Two value lists that agree on their first k entries accumulate to the same integer. */
  lemma {:induction false} AccumulatedAgree(u: seq<Option<nat>>, v: seq<Option<nat>>, sizes: seq<nat>, k: nat)
    requires k <= PackedCount(u, sizes) && k <= PackedCount(v, sizes)
    requires u[..k] == v[..k]
    ensures Accumulated(u, sizes, k) == Accumulated(v, sizes, k)
    decreases k
  {
    if k > 0 {
      assert u[..k - 1] == v[..k - 1] by {
        assert u[..k - 1] == u[..k][..k - 1];
        assert v[..k - 1] == v[..k][..k - 1];
      }
      assert u[k - 1] == u[..k][k - 1] == v[..k][k - 1] == v[k - 1];
      AccumulatedAgree(u, v, sizes, k - 1);
    }
  }

  /** Pack depends only on the values it packs. */
  lemma PackAgree(w: WeaponFlag, u: seq<Option<nat>>, v: seq<Option<nat>>)
    requires PackedCount(u, ItemSizes(w)) == PackedCount(v, ItemSizes(w))
    requires u[..PackedCount(u, ItemSizes(w))] == v[..PackedCount(u, ItemSizes(w))]
    ensures Pack(w, u) == Pack(w, v)
  {
    var sizes := ItemSizes(w);
    var n := PackedCount(u, sizes);
    AccumulatedAgree(u, v, sizes, n);
    forall t | 0 <= t < n
      ensures u[t] == v[t]
    {
      assert u[t] == u[..n][t] && v[t] == v[..n][t];
    }
    assert FitsBuffer(u, sizes, n) == FitsBuffer(v, sizes, n);
  }

  /** `pack_item_values` stops at the first `None`: nothing after it is written. */
  lemma PackStopsAtNone(w: WeaponFlag, values: seq<Option<nat>>, k: nat)
    requires k < |values| && values[k].None?
    ensures Pack(w, values) == Pack(w, values[..k])
  {
    var sizes := ItemSizes(w);
    var n := PackedCount(values, sizes);
    assert n <= k;
    PackedCountIs(values[..k], sizes, n);
    assert values[..k][..n] == values[..n];
    PackAgree(w, values, values[..k]);
  }

  /** Values beyond the 17 slots are ignored (`zip` stops at the width table). */
  lemma PackIgnoresExtraValues(w: WeaponFlag, values: seq<Option<nat>>)
    requires |values| > SlotCount
    ensures Pack(w, values) == Pack(w, values[..SlotCount])
  {
    var sizes := ItemSizes(w);
    var n := PackedCount(values, sizes);
    PackedCountIs(values[..SlotCount], sizes, n);
    assert values[..SlotCount][..n] == values[..n];
    PackAgree(w, values, values[..SlotCount]);
  }

  /** With every slot in range the OR of the slots is their sum and stays below the
      next slot's offset. */
  lemma {:induction false} AccumulatedBelow(values: seq<Option<nat>>, sizes: seq<nat>, k: nat)
    requires k <= PackedCount(values, sizes) && SlotsFit(values, sizes, k)
    ensures Accumulated(values, sizes, k) < Pow2(Offset(sizes, k))
    ensures k > 0 ==> Accumulated(values, sizes, k)
                      == Accumulated(values, sizes, k - 1) + Pow2(Offset(sizes, k - 1)) * values[k - 1].value
    decreases k
  {
    if k > 0 {
      assert SlotsFit(values, sizes, k - 1);
      AccumulatedBelow(values, sizes, k - 1);
      AccumulatedStep(values, sizes, k);
    }
  }

  /** One step of AccumulatedBelow: slot k - 1, in range, is added above the
      slots before it. */
  lemma AccumulatedStep(values: seq<Option<nat>>, sizes: seq<nat>, k: nat)
    requires 0 < k <= PackedCount(values, sizes)
    requires values[k - 1].value < Pow2(sizes[k - 1])
    requires Accumulated(values, sizes, k - 1) < Pow2(Offset(sizes, k - 1))
    ensures Accumulated(values, sizes, k) < Pow2(Offset(sizes, k))
    ensures Accumulated(values, sizes, k)
         == Accumulated(values, sizes, k - 1) + Pow2(Offset(sizes, k - 1)) * values[k - 1].value
  {
    var a, v, o, s := Accumulated(values, sizes, k - 1), values[k - 1].value, Offset(sizes, k - 1), sizes[k - 1];
    AppendSlot(a, v, o, s, Offset(sizes, k));
    assert Accumulated(values, sizes, k) == Or(a, Shl(v, o));
  }

  /** ORing a value v below 2^s in at offset o above an a below 2^o adds it, and the sum
      stays below 2^(o + s). */
  lemma AppendSlot(a: nat, v: nat, o: nat, s: nat, e: nat)
    requires a < Pow2(o) && v < Pow2(s) && e == o + s
    ensures Or(a, Shl(v, o)) == a + Pow2(o) * v
    ensures a + Pow2(o) * v < Pow2(e)
  {
    MulDistributes(v, Pow2(o), 0);
    OrDisjoint(a, v, o);
    MulMonotone(v, Pow2(s) - 1, Pow2(o));
    MulDistributes(Pow2(s), 1, Pow2(o));
    Pow2Add(o, s);
    MulDistributes(Pow2(o), Pow2(s), 0);
  }

  /** Slots in range never run past the buffer. */
  lemma InRangeFits(values: seq<Option<nat>>, sizes: seq<nat>, n: nat)
    requires n <= PackedCount(values, sizes) && SlotsFit(values, sizes, n)
    requires Offset(sizes, n) <= 8 * BufferSize
    ensures FitsBuffer(values, sizes, n)
  {
    forall t | 0 <= t < n
      ensures Shl(values[t].value, Offset(sizes, t)) < Pow2(8 * BufferSize)
    {
      MulPow2Less(values[t].value, sizes[t], Offset(sizes, t));
      OffsetMonotone(sizes, t + 1, n);
      Pow2Monotone(Offset(sizes, t + 1), 8 * BufferSize);
    }
  }

  /** Regrouping the part above slot t's offset. */
  lemma Regroup(a: nat, o: nat, v: nat, s: nat, p: nat)
    ensures a + Pow2(o) * v + Pow2(o + s) * p == a + Pow2(o) * (v + Pow2(s) * p)
  {
    Pow2Add(o, s);
    MulDistributes(Pow2(o), Pow2(s), p);
    MulDistributes(v, Pow2(s) * p, Pow2(o));
    MulDistributes(Pow2(o), v + Pow2(s) * p, 0);
    MulDistributes(Pow2(o), v, 0);
    MulDistributes(Pow2(o), Pow2(s) * p, 0);
  }

  /** The slot at offset o of a value a + 2^o * (v + 2^s * p), with a below 2^o and v
      below 2^s, is v. */
  lemma ReadSlotOf(a: nat, o: nat, v: nat, s: nat, p: nat, above: nat, x: nat)
    requires a < Pow2(o) && v < Pow2(s) && above == v + Pow2(s) * p && x == a + Pow2(o) * above
    ensures Low(Shr(x, o), s) == v
  {
    DivModAddMultiple(a, Pow2(o), above);
    DivZeroIff(a, Pow2(o));
    DivModAddMultiple(v, Pow2(s), p);
    DivModUnique(v, Pow2(s), 0, v);
  }

  /** One step of SlotOf in plain integers: the slots up to n, with p above them,
      regrouped as the slots below n - 1 plus slot n - 1 and p shifted above it. */
  lemma RegroupAbove(accN: nat, offN: nat, a: nat, o: nat, v: nat, s: nat, p: nat, above: nat)
    requires accN == a + Pow2(o) * v && offN == o + s && above == v + Pow2(s) * p
    ensures accN + Pow2(offN) * p == a + Pow2(o) * above
  {
    Regroup(a, o, v, s, p);
  }

  /** Reading slot t back out of the packed slots, whatever lies above them. */
  lemma {:induction false} SlotOf(values: seq<Option<nat>>, sizes: seq<nat>, n: nat, t: nat, p: nat, x: nat)
    requires t < n <= PackedCount(values, sizes) && SlotsFit(values, sizes, n)
    requires x == Accumulated(values, sizes, n) + Pow2(Offset(sizes, n)) * p
    ensures Low(Shr(x, Offset(sizes, t)), sizes[t]) == values[t].value
    decreases n
  {
    assert SlotsFit(values, sizes, n - 1);
    AccumulatedBelow(values, sizes, n);
    var a, o, v, s := Accumulated(values, sizes, n - 1), Offset(sizes, n - 1), values[n - 1].value, sizes[n - 1];
    MulNonneg(Pow2(s), p);
    var above: nat := v + Pow2(s) * p;
    RegroupAbove(Accumulated(values, sizes, n), Offset(sizes, n), a, o, v, s, p, above);
    if t == n - 1 {
      AccumulatedBelow(values, sizes, n - 1);
      ReadSlotOf(a, o, v, s, p, above, x);
    } else {
      SlotOf(values, sizes, n - 1, t, above, x);
    }
  }

  /** With enough bits, the slot at index k of an unpacking from slot m on reads the
      bits of slot k. */
  lemma {:induction false} UnpackFromAt(sizes: seq<nat>, m: nat, total: nat, x: nat, k: nat)
    requires m <= k < |sizes| && Offset(sizes, k + 1) <= total
    ensures UnpackFrom(sizes, m, Offset(sizes, m), total, x)[k - m]
         == Some(Low(Shr(x, Offset(sizes, k)), sizes[k]))
    decreases k - m
  {
    OffsetMonotone(sizes, m + 1, k + 1);
    UnpackReadSlot(sizes, m, Offset(sizes, m), total, x, Low(Shr(x, Offset(sizes, m)), sizes[m]));
    if m < k {
      UnpackFromAt(sizes, m + 1, total, x, k);
    }
  }

  /** Data holding all slot bits reads every slot as present, with the bits at its
      offset. */
  lemma UnpackComplete(w: WeaponFlag, data: seq<Byte>)
    requires 8 * |data| >= TotalBits(w)
    ensures forall k :: 0 <= k < SlotCount ==>
      Unpack(w, data)[k] == Some(Low(Shr(LeValue(data), Offset(ItemSizes(w), k)), ItemSizes(w)[k]))
  {
    UnpackFromComplete(ItemSizes(w), 8 * |data|, LeValue(data));
  }

  /** With all the bits there, every slot is read: none comes back `None`. */
  lemma UnpackFromComplete(sizes: seq<nat>, total: nat, x: nat)
    requires Offset(sizes, |sizes|) <= total
    ensures forall k :: 0 <= k < |sizes| ==>
      UnpackFrom(sizes, 0, 0, total, x)[k] == Some(Low(Shr(x, Offset(sizes, k)), sizes[k]))
  {
    forall k | 0 <= k < |sizes|
      ensures UnpackFrom(sizes, 0, 0, total, x)[k] == Some(Low(Shr(x, Offset(sizes, k)), sizes[k]))
    {
      OffsetMonotone(sizes, k + 1, |sizes|);
      UnpackFromAt(sizes, 0, total, x, k);
    }
  }

  /** The padding is 2^i times the padding's own all-ones value. */
  lemma PadBitsValue(i: nat)
    ensures PadBits(i) == Pow2(i) * (Pow2(8 * ByteLength(i) - i) - 1)
  {
    MulDistributes(Pow2(8 * ByteLength(i) - i) - 1, Pow2(i), 0);
  }

  /** The integer form of packing in-range slots: the `pad` bits set above bit i
      land above the slots' sum, and the total y fits the len bytes written. */
  lemma PaddedSum(acc: nat, i: nat, len: nat, pad: nat, y: nat)
    requires acc < Pow2(i) && i <= 8 * len
    requires pad == Pow2(8 * len - i) - 1 && y == acc + Pow2(i) * pad
    ensures Or(acc, Shl(pad, i)) == y && Low(y, 8 * len) == y
  {
    var p := 8 * len - i;
    MulDistributes(pad, Pow2(i), 0);
    OrDisjoint(acc, pad, i);
    AppendSlot(acc, pad, i, p, 8 * len);
    DivModUnique(y, Pow2(8 * len), 0, y);
  }

  /** In-range slots below bit i: the padded bytes hold them with the padding
      bits above. */
  lemma PaddedValue(acc: nat, i: nat, above: nat)
    requires acc < Pow2(i) && above == Pow2(8 * ByteLength(i) - i) - 1
    ensures LeValue(Padded(acc, i)) == acc + Pow2(i) * above
  {
    var len := ByteLength(i);
    MulNonneg(Pow2(i), above);
    var y: nat := acc + Pow2(i) * above;
    PaddedSum(acc, i, len, above, y);
    assert Or(acc, PadBits(i)) == y;
    LeValueOfLeBytes(y, len);
  }

  /** For in-range values, the integer the packed bytes hold: the slots' sum, with
      the padding bits above them. */
  lemma PackedValue(w: WeaponFlag, values: seq<Option<nat>>)
    requires InRange(w, values)
    ensures Pack(w, values) == Success(Padded(Accumulated(values, ItemSizes(w), |values|),
                                            Offset(ItemSizes(w), |values|)))
    ensures Accumulated(values, ItemSizes(w), |values|) < Pow2(Offset(ItemSizes(w), |values|))
  {
    var sizes := ItemSizes(w);
    var n := |values|;
    PackedCountIs(values, sizes, n);
    OffsetBelowBuffer(w, n);
    InRangeFits(values, sizes, n);
    AccumulatedBelow(values, sizes, n);
  }

  /** Unpacking a packed list gives back the values that were packed. */
  lemma PackUnpackPrefix(w: WeaponFlag, values: seq<Option<nat>>)
    requires InRange(w, values)
    ensures Pack(w, values).Success?
    ensures Unpack(w, Pack(w, values).value)[..|values|] == values
  {
    var sizes := ItemSizes(w);
    PackedValue(w, values);
    assert InRange(w, values);
    forall t | 0 <= t < |values|
      ensures Unpack(w, Pack(w, values).value)[t] == values[t]
    {
      PackedSlot(w, values, t);
    }
  }

  /** Slot t of the padded in-range slots reads back as the t-th value. */
  lemma PackedSlot(w: WeaponFlag, values: seq<Option<nat>>, t: nat)
    requires InRange(w, values) && t < |values|
    ensures Unpack(w, Padded(Accumulated(values, ItemSizes(w), |values|), Offset(ItemSizes(w), |values|)))[t]
         == values[t]
  {
    PackedCountIs(values, ItemSizes(w), |values|);
    PaddedSlotReadsBack(values, ItemSizes(w), t);
  }

  /** The padded bytes of in-range slots read slot t back as the t-th value. */
  lemma PaddedSlotReadsBack(values: seq<Option<nat>>, sizes: seq<nat>, t: nat)
    requires t < |values| == PackedCount(values, sizes) && SlotsFit(values, sizes, |values|)
    ensures var data := Padded(Accumulated(values, sizes, |values|), Offset(sizes, |values|));
      UnpackFrom(sizes, 0, 0, 8 * |data|, LeValue(data))[t] == values[t]
  {
    var n := |values|;
    var acc, i := Accumulated(values, sizes, n), Offset(sizes, n);
    var data := Padded(acc, i);
    var above: nat := Pow2(8 * ByteLength(i) - i) - 1;
    AccumulatedBelow(values, sizes, n);
    PaddedValue(acc, i, above);
    SlotReadsBack(values, sizes, t, above, LeValue(data), 8 * |data|);
  }

  /** Any integer holding the in-range slots below the n-th offset, whatever lies
      above, reads slot t back as the t-th value. */
  lemma SlotReadsBack(values: seq<Option<nat>>, sizes: seq<nat>, t: nat, above: nat, x: nat, total: nat)
    requires t < |values| == PackedCount(values, sizes) && SlotsFit(values, sizes, |values|)
    requires x == Accumulated(values, sizes, |values|) + Pow2(Offset(sizes, |values|)) * above
    requires Offset(sizes, |values|) <= total
    ensures UnpackFrom(sizes, 0, 0, total, x)[t] == values[t]
  {
    OffsetMonotone(sizes, t + 1, |values|);
    UnpackFromAt(sizes, 0, total, x, t);
    SlotOf(values, sizes, |values|, t, above, x);
  }

  /** A complete in-range item packs and unpacks to itself. */
  lemma PackUnpackRoundTrip(w: WeaponFlag, values: seq<Option<nat>>)
    requires InRange(w, values) && |values| == SlotCount
    ensures Pack(w, values).Success?
    ensures Unpack(w, Pack(w, values).value) == values
  {
    PackUnpackPrefix(w, values);
    assert Unpack(w, Pack(w, values).value)[..SlotCount] == Unpack(w, Pack(w, values).value);
  }

  /** Shifting the low i + p bits of x right by i leaves the p bits above i. */
  lemma ShrLow(x: nat, i: nat, p: nat)
    ensures Shr(Low(x, i + p), i) == Low(Shr(x, i), p)
  {
    Pow2Add(i, p);
    ModDiv(x, Pow2(i), Pow2(p));
  }

  /** Shifting right by i undoes placing m at bit i, whatever is ORed below. */
  lemma ShrOrPlaced(a: nat, m: nat, i: nat)
    ensures Shr(Or(a, Shl(m, i)), i) == Or(Shr(a, i), m)
  {
    OrShiftMod(a, Shl(m, i), i);
    MulDistributes(Pow2(i), m, 0);
    DivModAddMultiple(0, Pow2(i), m);
  }

  /** The low p bits of anything ORed with p one bits are all ones. */
  lemma LowOrAllOnes(a: nat, p: nat, ones: nat)
    requires ones == Pow2(p) - 1
    ensures Low(Or(a, ones), p) == ones
  {
    OrShiftMod(a, ones, p);
    DivModUnique(ones, Pow2(p), 0, ones);
    var la := Low(a, p);
    assert Low(ones, p) == ones;
    OrCommutes(la, ones);
    OrAllOnes(la, p);
  }

  /** In plain integers: whatever the slots hold, the bits from i up to the end of
      the len bytes of their OR `whole` with the p = 8 * len - i one bits of the
      padding are all ones. */
  lemma PaddingAllOnes(acc: nat, i: nat, len: nat, p: nat, ones: nat, whole: nat)
    requires i <= 8 * len && p == 8 * len - i && ones == Pow2(p) - 1
    requires whole == Or(acc, Shl(ones, i))
    ensures Shr(Low(whole, 8 * len), i) == ones
  {
    ShrLow(whole, i, p);
    assert i + p == 8 * len;
    ShrOrPlaced(acc, ones, i);
    LowOrAllOnes(Shr(acc, i), p, ones);
  }

  /** The padded bytes hold all ones above bit i. */
  lemma PaddedPadding(acc: nat, i: nat)
    ensures Shr(LeValue(Padded(acc, i)), i) == Pow2(8 * |Padded(acc, i)| - i) - 1
  {
    var len := ByteLength(i);
    var p := 8 * len - i;
    var ones: nat := Pow2(p) - 1;
    var whole := Or(acc, PadBits(i));
    assert PadBits(i) == Shl(ones, i);
    LeValueOfLeBytes(whole, len);
    PaddingAllOnes(acc, i, len, p, ones, whole);
    assert |Padded(acc, i)| == len;
  }

  /** A serial `pack_item_values` returns is the padding of the slots it packed. */
  lemma PackSuccess(w: WeaponFlag, values: seq<Option<nat>>)
    requires Pack(w, values).Success?
    ensures Pack(w, values).value
         == Padded(Accumulated(values, ItemSizes(w), PackedCount(values, ItemSizes(w))),
                   Offset(ItemSizes(w), PackedCount(values, ItemSizes(w))))
  {
  }

  /** A serial as `pack_item_values` writes it for a complete item: exactly the
      bytes the 17 slots need, with every bit above the last slot set. */
  predicate Canonical(w: WeaponFlag, data: seq<Byte>)
  {
    |data| == ByteLength(TotalBits(w))
    && Shr(LeValue(data), TotalBits(w)) == Pow2(8 * |data| - TotalBits(w)) - 1
  }

  /** A complete in-range item packs to a canonical serial. */
  lemma PackIsCanonical(w: WeaponFlag, values: seq<Option<nat>>)
    requires InRange(w, values) && |values| == SlotCount
    ensures Pack(w, values).Success? && Canonical(w, Pack(w, values).value)
  {
    PackedValue(w, values);
    PaddedIsCanonical(w, Accumulated(values, ItemSizes(w), SlotCount));
  }

  /** Any slots padded out at the full width form a canonical serial. */
  lemma PaddedIsCanonical(w: WeaponFlag, acc: nat)
    ensures Canonical(w, Padded(acc, TotalBits(w)))
  {
    PaddedPadding(acc, TotalBits(w));
  }

  /** Any serial `pack_item_values` returns, also one cut short by a missing slot,
      fits the 32-byte buffer, ends at the first byte boundary after the packed
      slots, and has every bit from there to its end set. */
  lemma PackPadded(w: WeaponFlag, values: seq<Option<nat>>)
    requires Pack(w, values).Success?
    ensures var i := Offset(ItemSizes(w), PackedCount(values, ItemSizes(w)));
      var r := Pack(w, values).value;
      |r| <= BufferSize && |r| == ByteLength(i) && OnesAbove(r, i)
  {
    var n := PackedCount(values, ItemSizes(w));
    var i := Offset(ItemSizes(w), n);
    PackSuccess(w, values);
    OffsetBelowBuffer(w, n);
    PaddedShape(Pack(w, values).value, Accumulated(values, ItemSizes(w), n), i);
  }

  /** Slots ending at or below bit 253, padded, fit the 32-byte buffer and hold
      all ones above bit i. */
  lemma PaddedShape(r: seq<Byte>, acc: nat, i: nat)
    requires i <= 253 && r == Padded(acc, i)
    ensures |r| <= BufferSize && |r| == ByteLength(i) && OnesAbove(r, i)
  {
    PaddedPadding(acc, i);
  }

  /** Every bit of data from bit i to its end is set. */
  predicate OnesAbove(data: seq<Byte>, i: nat)
  {
    i <= 8 * |data| && Shr(LeValue(data), i) == Pow2(8 * |data| - i) - 1
  }

  /** The low o bits of x and the s-bit slot above them make up its low o + s bits. */
  lemma LowExtend(x: nat, o: nat, s: nat)
    ensures Low(x, o) + Pow2(o) * Low(Shr(x, o), s) == Low(x, o + s)
  {
    Pow2Add(o, s);
    ModProduct(x, Pow2(o), Pow2(s));
  }

  /** Slots read out of x pack back to the low bits of x. */
  lemma {:induction false} AccumulatedOfReads(values: seq<Option<nat>>, sizes: seq<nat>, k: nat, x: nat)
    requires k <= PackedCount(values, sizes)
    requires forall t :: 0 <= t < k ==> values[t] == Some(Low(Shr(x, Offset(sizes, t)), sizes[t]))
    ensures Accumulated(values, sizes, k) == Low(x, Offset(sizes, k))
    decreases k
  {
    if k == 0 {
      assert Low(x, 0) == 0 by { DivModUnique(x, Pow2(0), x, 0); }
    } else {
      AccumulatedOfReads(values, sizes, k - 1, x);
      ReadBackStep(values, sizes, k, x);
    }
  }

  /** One step of AccumulatedOfReads: slot k - 1, read out of x, extends the low
      bits of x the slots before it make up. */
  lemma ReadBackStep(values: seq<Option<nat>>, sizes: seq<nat>, k: nat, x: nat)
    requires 0 < k <= PackedCount(values, sizes)
    requires values[k - 1] == Some(Low(Shr(x, Offset(sizes, k - 1)), sizes[k - 1]))
    requires Accumulated(values, sizes, k - 1) == Low(x, Offset(sizes, k - 1))
    ensures Accumulated(values, sizes, k) == Low(x, Offset(sizes, k))
  {
    var o, s := Offset(sizes, k - 1), sizes[k - 1];
    var v := Low(Shr(x, o), s);
    AppendSlot(Low(x, o), v, o, s, o + s);
    LowExtend(x, o, s);
    assert Accumulated(values, sizes, k) == Or(Low(x, o), Shl(v, o)) && Offset(sizes, k) == o + s;
  }

  /** Whatever the padding bits above T hold as all ones, the padded low T bits of
      x are the bytes of x. */
  lemma PaddedOfCanonical(data: seq<Byte>, i: nat)
    requires |data| == ByteLength(i) && Shr(LeValue(data), i) == Pow2(8 * |data| - i) - 1
    ensures Padded(Low(LeValue(data), i), i) == data
  {
    CanonicalValue(LeValue(data), i, |data|);
    LeBytesOfLeValue(data, |data|);
  }

  /** In plain integers: an x whose bits above i are the padding equals its low i
      bits ORed with the padding. */
  lemma CanonicalValue(x: nat, i: nat, len: nat)
    requires len == ByteLength(i) && Shr(x, i) == Pow2(8 * len - i) - 1
    ensures Or(Low(x, i), PadBits(i)) == x
  {
    PadBitsValue(i);
    OrDisjoint(Low(x, i), Shr(x, i), i);
    Decompose(x, Pow2(i));
  }

  /** Unpacking a canonical serial and packing the slots again gives back the same
      bytes. */
  lemma UnpackPackRoundTrip(w: WeaponFlag, data: seq<Byte>)
    requires Canonical(w, data)
    ensures Pack(w, Unpack(w, data)) == Success(data)
  {
    UnpackCompleteInRange(w, data);
    PackedValue(w, Unpack(w, data));
    PaddedOfUnpack(w, data);
  }

  /** The slots of a canonical serial, padded again, are its bytes. */
  lemma PaddedOfUnpack(w: WeaponFlag, data: seq<Byte>)
    requires Canonical(w, data)
    ensures PackedCount(Unpack(w, data), ItemSizes(w)) == SlotCount
    ensures Padded(Accumulated(Unpack(w, data), ItemSizes(w), SlotCount), TotalBits(w)) == data
  {
    PaddedOfUnpackFrom(ItemSizes(w), data, TotalBits(w));
  }

  /** `PaddedOfUnpack` for any width table whose slots take i bits. */
  lemma PaddedOfUnpackFrom(sizes: seq<nat>, data: seq<Byte>, i: nat)
    requires i == Offset(sizes, |sizes|)
    requires |data| == ByteLength(i) && Shr(LeValue(data), i) == Pow2(8 * |data| - i) - 1
    ensures PackedCount(UnpackFrom(sizes, 0, 0, 8 * |data|, LeValue(data)), sizes) == |sizes|
    ensures Padded(Accumulated(UnpackFrom(sizes, 0, 0, 8 * |data|, LeValue(data)), sizes, |sizes|), i) == data
  {
    AccumulatedOfUnpackFrom(sizes, 8 * |data|, LeValue(data));
    PaddedOfCanonical(data, i);
  }

  /** The slots of data holding all slot bits pack back to its low bits. */
  lemma AccumulatedOfUnpack(w: WeaponFlag, data: seq<Byte>)
    requires 8 * |data| >= TotalBits(w)
    ensures PackedCount(Unpack(w, data), ItemSizes(w)) == SlotCount
    ensures Accumulated(Unpack(w, data), ItemSizes(w), SlotCount) == Low(LeValue(data), TotalBits(w))
  {
    AccumulatedOfUnpackFrom(ItemSizes(w), 8 * |data|, LeValue(data));
  }

  /** The slots read from x holding `total` bits, all present, pack back to the
      low bits of x. */
  lemma AccumulatedOfUnpackFrom(sizes: seq<nat>, total: nat, x: nat)
    requires Offset(sizes, |sizes|) <= total
    ensures PackedCount(UnpackFrom(sizes, 0, 0, total, x), sizes) == |sizes|
    ensures Accumulated(UnpackFrom(sizes, 0, 0, total, x), sizes, |sizes|) == Low(x, Offset(sizes, |sizes|))
  {
    var values := UnpackFrom(sizes, 0, 0, total, x);
    UnpackFromComplete(sizes, total, x);
    PackedCountIs(values, sizes, |sizes|);
    AccumulatedOfReads(values, sizes, |sizes|, x);
  }

  /** Data holding all slot bits unpacks to a complete, in-range item. */
  lemma UnpackCompleteInRange(w: WeaponFlag, data: seq<Byte>)
    requires 8 * |data| >= TotalBits(w)
    ensures InRange(w, Unpack(w, data))
  {
    UnpackFromCompleteInRange(ItemSizes(w), 8 * |data|, LeValue(data));
  }

  /** `UnpackCompleteInRange` for any width table. */
  lemma UnpackFromCompleteInRange(sizes: seq<nat>, total: nat, x: nat)
    requires Offset(sizes, |sizes|) <= total
    ensures SlotsFit(UnpackFrom(sizes, 0, 0, total, x), sizes, |sizes|)
  {
    UnpackFromComplete(sizes, total, x);
    UnpackFromInRange(sizes, 0, 0, total, x);
  }
}
