/** The item and weapon records around the packed serial: the five-byte header
    of `wrap_item`/`unwrap_item` (a version/type byte and a signed 32-bit
    big-endian key), and the split of each header field and part into a
    library index and an asset index done by `unwrap_item_info` and undone by
    `wrap_item_info`. The obfuscation of the body (`create_body`, `xor_data`,
    `rotate_data_right`) is outside the model and enters as function
    parameters. */
module ItemCodec {
  import opened Results
  import opened PyInt
  import opened ByteStrings
  import opened ItemSerial

  // ---------------------------------------------------------------------
  // Tables

  /** The widths of the asset index in the type, balance and manufacturer
      fields (`item_header_sizes`), row 0 for items, row 1 for weapons. */
  function HeaderSizes(w: WeaponFlag): (r: seq<nat>)
    ensures |r| == 3
  {
    if w == 0 then [8, 10, 7] else [6, 10, 7]
  }

  /** The width of a part's asset index: `10 + is_weapon`. */
  function PartBits(w: WeaponFlag): nat
  {
    10 + w
  }

  // ---------------------------------------------------------------------
  // The header

  /** `struct.pack(">B", (is_weapon << 7) | item_struct_version)`. For a negative
      flag the OR is negative, which the `B` format refuses like any value above
      255. */
  function HeaderByte(w: int, version: nat): Result<Byte>
  {
    if w < 0 then Failure(StructRange)
    else
      var b := Or(Shl(w, 7), version);
      if b < 256 then Success(b) else Failure(StructRange)
  }

  /** The header byte can be written exactly when the flag is 0 or 1 and the
      version fits a byte; otherwise `struct.pack` raises struct.error. */
  lemma HeaderByteSucceeds(w: int, version: nat)
    ensures HeaderByte(w, version).Success? <==> 0 <= w <= 1 && version < 256
    ensures HeaderByte(w, version).Failure? ==> HeaderByte(w, version).error == StructRange
  {
    Pow2Byte();
    if w >= 0 {
      var a := Shl(w, 7);
      if 0 <= w <= 1 && version < 256 {
        OrBound(a, version, 8);
      } else if w > 1 {
        assert a >= 256;
        OrAtLeast(a, version);
      } else {
        OrCommutes(a, version);
        OrAtLeast(version, a);
      }
    }
  }

  /** With a version below 128, the weapon flag is the top bit of the header
      byte and the version its low seven bits, so `>> 7` reads the flag back. */
  lemma HeaderByteFields(w: WeaponFlag, version: nat)
    requires version < 128
    ensures HeaderByte(w, version) == Success(version + 128 * w)
    ensures Shr(version + 128 * w, 7) == w && Low(version + 128 * w, 7) == version
  {
    assert Pow2(7) == 128;
    OrCommutes(Shl(w, 7), version);
    OrDisjoint(version, w, 7);
    DivModUnique(version + 128 * w, 128, w, version);
  }

  /** `struct.pack(">Bi", byte, key)`. */
  function HeaderOf(w: int, version: nat, key: int): (r: Result<seq<Byte>>)
    ensures r.Success? ==> |r.value| == 5
  {
    var b :- HeaderByte(w, version);
    var k :- EncodeI32BE(key);
    Success([b] + k)
  }

  /** The two fields of `struct.unpack(">Bi", data[:5])`. */
  datatype Header = Header(versionType: Byte, key: int)

  /** `struct.unpack(">Bi", data[:5])`, which raises `struct.error` when fewer
      than five bytes are given. */
  function ParseHeader(data: seq<Byte>): (r: Result<Header>)
    ensures r.Success? <==> |data| >= 5
  {
    if |data| < 5 then Failure(StructRange)
    else Success(Header(data[0], DecodeI32BE(data[1..5])))
  }

  /** A written header reads back as its byte and key. */
  lemma ParseHeaderOf(w: WeaponFlag, version: nat, key: int, rest: seq<Byte>)
    requires HeaderOf(w, version, key).Success?
    ensures ParseHeader(HeaderOf(w, version, key).value + rest)
         == Success(Header(HeaderByte(w, version).value, key))
  {
    var data := HeaderOf(w, version, key).value + rest;
    assert data[1..5] == EncodeI32BE(key).value;
  }

  /** `version_type >> 7`: the weapon flag of a header byte. */
  function WeaponBit(b: Byte): (r: WeaponFlag)
    ensures r == Shr(b, 7)
  {
    assert Pow2(7) == 128;
    DivModUnique(b, 128, if b < 128 then 0 else 1, if b < 128 then b else b - 128);
    if b < 128 then 0 else 1
  }

  // ---------------------------------------------------------------------
  // Wrapping and unwrapping an item

  /** `wrap_item`: the packed serial, then the header, then the body `create_body`
      makes from the serial, the header and the key. */
  function WrapItem(w: int, values: seq<Option<int>>, key: int, version: nat,
                    createBody: (seq<Byte>, seq<Byte>, int) -> seq<Byte>): Result<seq<Byte>>
  {
    var item :- PackItem(w, values);
    var header :- HeaderOf(w, version, key);
    Success(header + createBody(item, header, key))
  }

  /** Wrapping succeeds exactly when the flag is 0 or 1, packing succeeds, the
      version fits the header byte and the key is in the signed 32-bit range.
      A packing failure (a flag that selects no size table, a negative value, a
      value past the buffer) is IndexError; a flag of -1 or -2, which does select a
      table, fails at the header with struct.error once the values pack. */
  lemma WrapItemSucceeds(w: int, values: seq<Option<int>>, key: int, version: nat,
                         createBody: (seq<Byte>, seq<Byte>, int) -> seq<Byte>)
    ensures WrapItem(w, values, key, version, createBody).Success?
        <==> 0 <= w <= 1 && PackItem(w, values).Success? && version < 256 && I32Min <= key <= I32Max
    ensures PackItem(w, values).Failure? ==> WrapItem(w, values, key, version, createBody) == Failure(IndexOutOfRange)
    ensures w < 0 && PackItem(w, values).Success? ==> WrapItem(w, values, key, version, createBody) == Failure(StructRange)
  {
    HeaderByteSucceeds(w, version);
  }

  /** What `unwrap_item` returns: the weapon flag, the unpacked slots and the key. */
  datatype Unwrapped = Unwrapped(isWeapon: WeaponFlag, values: seq<Option<nat>>, key: int)

  /** `unwrap_item`: the header, then the body past the header deobfuscated
      with the key, its first two bytes dropped and the rest unpacked. */
  function UnwrapItem(data: seq<Byte>, deobfuscate: (seq<Byte>, int) -> seq<Byte>): (r: Result<Unwrapped>)
    ensures r.Success? ==> |r.value.values| == SlotCount
  {
    var h :- ParseHeader(data);
    var w := WeaponBit(h.versionType);
    var raw := deobfuscate(data[5..], h.key);
    var body := if |raw| < 2 then [] else raw[2..];
    Success(Unwrapped(w, Unpack(w, body), h.key))
  }

  /** The obfuscation outside the model undoes itself: deobfuscating a body made
      from an item yields two bytes and then the item. */
  ghost predicate BodyCodecInverts(createBody: (seq<Byte>, seq<Byte>, int) -> seq<Byte>,
                                   deobfuscate: (seq<Byte>, int) -> seq<Byte>)
  {
    forall item: seq<Byte>, header: seq<Byte>, key: int ::
      |deobfuscate(createBody(item, header, key), key)| >= 2
      && deobfuscate(createBody(item, header, key), key)[2..] == item
  }

  /** A complete, in-range item wrapped with a valid version and key unwraps to
      its weapon flag, values and key. */
  lemma WrapUnwrapItem(w: WeaponFlag, values: seq<Option<nat>>, key: int, version: nat,
                       createBody: (seq<Byte>, seq<Byte>, int) -> seq<Byte>,
                       deobfuscate: (seq<Byte>, int) -> seq<Byte>)
    requires BodyCodecInverts(createBody, deobfuscate)
    requires InRange(w, values) && |values| == SlotCount
    requires version < 128 && I32Min <= key <= I32Max
    ensures WrapItem(w, values, key, version, createBody).Success?
    ensures UnwrapItem(WrapItem(w, values, key, version, createBody).value, deobfuscate)
         == Success(Unwrapped(w, values, key))
  {
    PackItemOfNat(w, values);
    PackUnpackRoundTrip(w, values);
    HeaderByteFields(w, version);
    var item := Pack(w, values).value;
    var header := HeaderOf(w, version, key).value;
    UnwrapHeaderThenBody(w, version, key, createBody(item, header, key), deobfuscate);
  }

  /** Unwrapping a written header followed by a body gives the header's flag and
      key, and the slots of the deobfuscated body past its first two bytes. */
  lemma UnwrapHeaderThenBody(w: WeaponFlag, version: nat, key: int, body: seq<Byte>,
                             deobfuscate: (seq<Byte>, int) -> seq<Byte>)
    requires version < 128 && I32Min <= key <= I32Max
    requires |deobfuscate(body, key)| >= 2
    ensures HeaderOf(w, version, key).Success?
    ensures UnwrapItem(HeaderOf(w, version, key).value + body, deobfuscate)
         == Success(Unwrapped(w, Unpack(w, deobfuscate(body, key)[2..]), key))
  {
    HeaderByteFields(w, version);
    var header := HeaderOf(w, version, key).value;
    ParseHeaderOf(w, version, key, body);
    assert (header + body)[5..] == body;
  }

  /** Unwrapping fails exactly on data shorter than the five header bytes. */
  lemma UnwrapItemFails(data: seq<Byte>, deobfuscate: (seq<Byte>, int) -> seq<Byte>)
    ensures UnwrapItem(data, deobfuscate).Failure? <==> |data| < 5
  {
  }

  // ---------------------------------------------------------------------
  // Library and asset indices

  /** A header field or part split into its library and asset indices. */
  datatype LibAsset = LibAsset(lib: nat, asset: nat)

  /** `lib = x >> bits; asset = x & ~(lib << bits)`. */
  function Split(x: nat, bits: nat): (r: LibAsset)
    ensures r.asset < Pow2(bits) && r.lib * Pow2(bits) + r.asset == x
  {
    var lib := Shr(x, bits);
    SplitBits(x, bits);
    LibAsset(lib, AndNot(x, Shl(lib, bits)))
  }

  /** In plain integers: the asset index is the low bits and the library index
      the rest. */
  lemma SplitBits(x: nat, bits: nat)
    ensures AndNot(x, Shl(Shr(x, bits), bits)) == Low(x, bits)
    ensures Shr(x, bits) * Pow2(bits) + Low(x, bits) == x
  {
    AndNotHighPart(x, bits);
    Decompose(x, Pow2(bits));
    MulDistributes(Shr(x, bits), Pow2(bits), 0);
  }

  /** `(lib << bits) | asset`. */
  function Join(v: LibAsset, bits: nat): (r: nat)
    ensures v.asset < Pow2(bits) ==> r == v.lib * Pow2(bits) + v.asset
  {
    if v.asset < Pow2(bits) then
      OrCommutes(Shl(v.lib, bits), v.asset);
      OrDisjoint(v.asset, v.lib, bits);
      Or(Shl(v.lib, bits), v.asset)
    else
      Or(Shl(v.lib, bits), v.asset)
  }

  /** Recombining a split value gives the value back. */
  lemma JoinSplit(x: nat, bits: nat)
    ensures Join(Split(x, bits), bits) == x
  {
  }

  /** Splitting a recombined pair gives the pair back when the asset index fits
      its width. */
  lemma SplitJoin(v: LibAsset, bits: nat)
    requires v.asset < Pow2(bits)
    ensures Split(Join(v, bits), bits) == v
  {
    var x := Join(v, bits);
    var r := Split(x, bits);
    DivModUnique(x, Pow2(bits), v.lib, v.asset);
    DivModUnique(x, Pow2(bits), r.lib, r.asset);
  }

  // ---------------------------------------------------------------------
  // Item information

  /** The dictionary `unwrap_item_info` builds (without `_base64`): `level` is the
      pair (grade index, game stage). */
  datatype ItemInfo = ItemInfo(
    isWeapon: WeaponFlag,
    key: int,
    itemSet: Option<nat>,
    itemType: LibAsset,
    balance: LibAsset,
    manufacturer: LibAsset,
    grade: Option<nat>,
    gameStage: Option<nat>,
    parts: seq<Option<LibAsset>>)

  /** The parts loop of `unwrap_item_info`: `None` stays `None`. */
  function SplitParts(parts: seq<Option<nat>>, bits: nat): (r: seq<Option<LibAsset>>)
    ensures |r| == |parts|
    ensures forall k :: 0 <= k < |parts| ==> (r[k].None? <==> parts[k].None?)
  {
    seq(|parts|, k requires 0 <= k < |parts| =>
      if parts[k].None? then None else Some(Split(parts[k].value, bits)))
  }

  /** The parts loop of `wrap_item_info`: `None` stays `None`. */
  function JoinParts(parts: seq<Option<LibAsset>>, bits: nat): (r: seq<Option<nat>>)
    ensures |r| == |parts|
    ensures forall k :: 0 <= k < |parts| ==> (r[k].None? <==> parts[k].None?)
  {
    seq(|parts|, k requires 0 <= k < |parts| =>
      if parts[k].None? then None else Some(Join(parts[k].value, bits)))
  }

  /** Joining the split parts gives the raw slot values back. */
  lemma JoinSplitParts(parts: seq<Option<nat>>, bits: nat)
    ensures JoinParts(SplitParts(parts, bits), bits) == parts
  {
    var back := JoinParts(SplitParts(parts, bits), bits);
    forall k | 0 <= k < |parts|
      ensures back[k] == parts[k]
    {
      if parts[k].Some? {
        JoinSplit(parts[k].value, bits);
      }
    }
  }

  /** Splitting the joined parts gives the (library, asset) pairs back when each
      asset fits its width. */
  lemma SplitJoinParts(parts: seq<Option<LibAsset>>, bits: nat)
    requires forall k :: 0 <= k < |parts| && parts[k].Some? ==> parts[k].value.asset < Pow2(bits)
    ensures SplitParts(JoinParts(parts, bits), bits) == parts
  {
    var back := SplitParts(JoinParts(parts, bits), bits);
    forall k | 0 <= k < |parts|
      ensures back[k] == parts[k]
    {
      if parts[k].Some? {
        SplitJoin(parts[k].value, bits);
      }
    }
  }

  const MissingHeaderMessage: string := "unwrap_item_info got None instead of int"

  /** The body of `unwrap_item_info` after `unwrap_item`: the three header
      fields must be present (otherwise the program exits), and they and the
      parts are split at their widths. */
  function InfoOf(w: WeaponFlag, values: seq<Option<nat>>, key: int): Result<ItemInfo>
    requires |values| == SlotCount
  {
    var hs := HeaderSizes(w);
    if values[1].None? || values[2].None? || values[3].None? then Failure(Exit(MissingHeaderMessage))
    else
      Success(ItemInfo(w, key, values[0],
        Split(values[1].value, hs[0]), Split(values[2].value, hs[1]), Split(values[3].value, hs[2]),
        values[4], values[5], SplitParts(values[6..], PartBits(w))))
  }

  /** The list `wrap_item_info` builds: set, the three recombined header fields,
      grade and game stage, then the recombined parts. */
  function InfoValues(info: ItemInfo): (r: seq<Option<nat>>)
    ensures |r| == 6 + |info.parts|
  {
    var hs := HeaderSizes(info.isWeapon);
    [info.itemSet,
     Some(Join(info.itemType, hs[0])), Some(Join(info.balance, hs[1])), Some(Join(info.manufacturer, hs[2])),
     info.grade, info.gameStage]
    + JoinParts(info.parts, PartBits(info.isWeapon))
  }

  /** `unwrap_item_info`. */
  function UnwrapItemInfo(data: seq<Byte>, deobfuscate: (seq<Byte>, int) -> seq<Byte>): Result<ItemInfo>
  {
    var u :- UnwrapItem(data, deobfuscate);
    InfoOf(u.isWeapon, u.values, u.key)
  }

  /** `wrap_item_info`. */
  function WrapItemInfo(info: ItemInfo, version: nat,
                        createBody: (seq<Byte>, seq<Byte>, int) -> seq<Byte>): Result<seq<Byte>>
  {
    WrapItem(info.isWeapon, InfoValues(info), info.key, version, createBody)
  }

  /** The program exits exactly when one of the three header fields is missing;
      otherwise each part is `None` exactly when its slot is. */
  lemma InfoOfOutcome(w: WeaponFlag, values: seq<Option<nat>>, key: int)
    requires |values| == SlotCount
    ensures InfoOf(w, values, key).Failure?
        <==> values[1].None? || values[2].None? || values[3].None?
    ensures InfoOf(w, values, key).Failure? ==> InfoOf(w, values, key).error == Exit(MissingHeaderMessage)
    ensures InfoOf(w, values, key).Success? ==>
      |InfoOf(w, values, key).value.parts| == 11
      && forall k :: 0 <= k < 11 ==> (InfoOf(w, values, key).value.parts[k].None? <==> values[6 + k].None?)
  {
  }

  /** Splitting the slots of an item and recombining them gives the slots back. */
  lemma InfoValuesOfInfo(w: WeaponFlag, values: seq<Option<nat>>, key: int)
    requires |values| == SlotCount && InfoOf(w, values, key).Success?
    ensures InfoValues(InfoOf(w, values, key).value) == values
  {
    var hs := HeaderSizes(w);
    JoinSplit(values[1].value, hs[0]);
    JoinSplit(values[2].value, hs[1]);
    JoinSplit(values[3].value, hs[2]);
    JoinSplitParts(values[6..], PartBits(w));
    assert values == values[..6] + values[6..];
  }

  /** Item information whose asset indices fit their widths, with eleven parts. */
  predicate WellFormedInfo(info: ItemInfo)
  {
    var hs := HeaderSizes(info.isWeapon);
    |info.parts| == 11
    && info.itemType.asset < Pow2(hs[0])
    && info.balance.asset < Pow2(hs[1])
    && info.manufacturer.asset < Pow2(hs[2])
    && forall k :: 0 <= k < |info.parts| && info.parts[k].Some?
         ==> info.parts[k].value.asset < Pow2(PartBits(info.isWeapon))
  }

  /** Recombining well-formed item information and splitting it again gives it
      back. */
  lemma InfoOfInfoValues(info: ItemInfo)
    requires WellFormedInfo(info)
    ensures InfoOf(info.isWeapon, InfoValues(info), info.key) == Success(info)
  {
    var hs := HeaderSizes(info.isWeapon);
    var values := InfoValues(info);
    SplitJoin(info.itemType, hs[0]);
    SplitJoin(info.balance, hs[1]);
    SplitJoin(info.manufacturer, hs[2]);
    SplitJoinParts(info.parts, PartBits(info.isWeapon));
    assert values[6..] == JoinParts(info.parts, PartBits(info.isWeapon));
  }

  /** Well-formed item information whose slots fit their widths, wrapped with a
      valid version and key, unwraps to itself. */
  lemma WrapUnwrapItemInfo(info: ItemInfo, version: nat,
                           createBody: (seq<Byte>, seq<Byte>, int) -> seq<Byte>,
                           deobfuscate: (seq<Byte>, int) -> seq<Byte>)
    requires BodyCodecInverts(createBody, deobfuscate)
    requires WellFormedInfo(info) && InRange(info.isWeapon, InfoValues(info))
    requires version < 128 && I32Min <= info.key <= I32Max
    ensures WrapItemInfo(info, version, createBody).Success?
    ensures UnwrapItemInfo(WrapItemInfo(info, version, createBody).value, deobfuscate) == Success(info)
  {
    WrapUnwrapItem(info.isWeapon, InfoValues(info), info.key, version, createBody, deobfuscate);
    InfoOfInfoValues(info);
  }

  // ---------------------------------------------------------------------
  // Placeholder items

  /** The export skip test: the first slot is 255 and every other slot is 0
      (a missing slot is not 0). */
  predicate IsPlaceholder(values: seq<Option<nat>>)
  {
    |values| > 0 && values[0] == Some(255) && forall k :: 1 <= k < |values| ==> values[k] == Some(0)
  }

  /** The one complete item the export skips. */
  const PlaceholderItem: seq<Option<nat>> := [Some(255)] + seq(16, _ => Some(0))

  /** Among complete items, the skip test picks out exactly the placeholder. */
  lemma PlaceholderExactly(values: seq<Option<nat>>)
    requires |values| == SlotCount
    ensures IsPlaceholder(values) <==> values == PlaceholderItem
  {
    if IsPlaceholder(values) {
      assert forall k :: 0 <= k < SlotCount ==> values[k] == PlaceholderItem[k];
    }
  }

  /** The placeholder is an in-range item of either kind, so it survives
      packing and unpacking. */
  lemma PlaceholderInRange(w: WeaponFlag)
    ensures InRange(w, PlaceholderItem)
  {
    Pow2Byte();
    var sizes := ItemSizes(w);
    forall k | 1 <= k < SlotCount
      ensures 0 < Pow2(sizes[k])
    {
    }
  }
}
