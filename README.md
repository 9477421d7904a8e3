# bl2wealth: a verified model of the save editor's core

bl2wealth edits Borderlands 2 save games. This project models in Dafny the
parts of the editor that compute something of their own, and proves
properties of them.

- **Item serials** (`ItemSerial`). `pack_item_values` is the bit packer that
  turns the 17 slot values of an item or weapon into a short little-endian
  byte string. The slot values are set, type, balance, manufacturer, grade,
  game stage and eleven parts. `unpack_item_values` reads them back. Both are
  imperative methods over the source's own buffer and loops:
  - packing writes into a 32-byte `array`;
  - unpacking folds the bytes of each slot.

  Each method is proved equal to a function that says what the result means:
  - `Pack` is the OR of every value shifted to its slot's offset, padded with
    one bits to a whole byte;
  - `PackItem` adds the source's failures: `IndexError` for a flag that
    selects no width table, for a negative value (whose `>> 8` never reaches
    0, so the byte index runs off the buffer) and for a value that runs past
    the buffer;
  - `Unpack` reads each slot's bits, or `None` when the data is too short.
- **Item records** (`ItemCodec`):
  - the five-byte header of `wrap_item`/`unwrap_item`: a byte holding the
    weapon flag and struct version, then a signed 32-bit big-endian key;
  - the split of each header field and part into a library index and an
    asset index by `unwrap_item_info`, and the join that `wrap_item_info`
    does;
  - the test the item export uses to skip placeholder entries.
- **Save edits** (`SaveEdits`). A `Player` class holds the decoded record
  fields that the three edits of `modify_save` update in place:
  - `_set_money` writes the currencies;
  - `_unlock_features` sets the Creature Slaughterdome flag;
  - `_fix_challenge_overflow` repairs challenge counters.

  The module also covers the black-market conversion between the upgrade
  list and its named dictionary.
- **Configuration** (`Config`):
  - the rule at the end of `parse_args` that ties the output format to the
    presence of an output file;
  - the `-o` choices;
  - `DictAction`, which collects a repeatable option into a dictionary of
    `True` values.

Two supporting modules model Python's semantics:
- `PyInt` covers Python's unbounded non-negative `<<`, `>>`, `|` and
  `x & ~y`.
- `ByteStrings` covers little-endian byte values and the `>i` struct field.
  `Results` holds the error model. Each exception the modelled paths raise
  becomes a `Failure` naming its kind: IndexError, struct.error, KeyError,
  AttributeError, ValueError, `sys.exit` and the parser's usage error.
  Values of the wrong Python type (and the TypeError they would raise) are
  ruled out by the model's types.

## Model

| member | source | states |
|---|---|---|
| ItemSerial.TotalBitsValues | borderlands/savefile.py:52-55 | The item table's slots take 246 bits and the weapon table's 253, so both fit the 256-bit buffer. |
| ItemSerial.PackItemValues | borderlands/savefile.py:111-128 | For any integer flag and any integer values, the method returns exactly `PackItem(is_weapon, values)`: IndexError for a flag outside -2..1 or a negative or overflowing value, else the padded serial. |
| ItemSerial.PackSlots | borderlands/savefile.py:113-128 | For any width table of at most 253 bits and any integer values, the loop over the buffer computes `PackInts(sizes, values)`. |
| ItemSerial.WriteSlot | borderlands/savefile.py:116-124 | One slot written into the buffer. Either the value is nonnegative and now ORed in at the slot's offset, or it is negative or overflows, and packing as a whole fails with IndexError. |
| ItemSerial.OrInto | borderlands/savefile.py:118-123 | The inner byte loop succeeds exactly when the value is nonnegative and the shifted value fits 256 bits. It then leaves the buffer's value ORed with the value shifted by 8*j. A negative value stays negative under `>> 8`, so its loop runs off the buffer. |
| ItemSerial.FinishPacking | borderlands/savefile.py:125-128 | After the last packed slot with no negative value before it, padding and slicing the buffer gives `PackInts(sizes, values)`. |
| ItemSerial.TableRow | borderlands/savefile.py:114 | `self.item_sizes[is_weapon]` selects a row exactly for -2..1, namely row `is_weapon % 2` under Python's negative indexing. Any other flag is IndexError. |
| ItemSerial.Naturals | borderlands/savefile.py:114-117 | Keeps the length, where the `None`s are and every nonnegative value. |
| ItemSerial.NaturalsPackedCount | borderlands/savefile.py:114-117 | The number of packed slots does not depend on the values' signs. |
| ItemSerial.NaturalsOfNat | borderlands/savefile.py:114-117 | On nonnegative values the conversion changes nothing. |
| ItemSerial.PackSlotNegative | borderlands/savefile.py:119-122 | A negative value anywhere before the first `None` makes packing fail with IndexError, whatever the other values are. |
| ItemSerial.PackIntsOfNonNegative | borderlands/savefile.py:113-128 | With no negative value before the first `None`, packing is `PackWith` on the values. |
| ItemSerial.PackItemOutcome | borderlands/savefile.py:111-128 | Packing fails only with IndexError. It fails for a flag outside -2..1 and for a negative packed value. Otherwise it is `Pack` with the row `is_weapon % 2`. |
| ItemSerial.PackItemOfNat | borderlands/savefile.py:111-128 | For a flag of 0 or 1 and nonnegative values, `PackItem` is `Pack`. |
| ItemSerial.PackPadded | borderlands/savefile.py:125-128 | Every successful pack, also one cut short by a `None`, fits 32 bytes, ends at the first byte boundary after the packed slots and has every bit above them set. |
| ItemSerial.SetPadding | borderlands/savefile.py:125-127 | The padding step sets the bits from i to the next byte boundary and keeps every other bit. |
| ItemSerial.PackedCount | borderlands/savefile.py:115-117 | Every value before the count is present. Otherwise the count is where the value list or width table ends or where the first `None` sits. |
| ItemSerial.ByteLength | borderlands/savefile.py:128 | `(i + 7) >> 3` is the fewest whole bytes that hold i bits. |
| ItemSerial.PackedCountIs | borderlands/savefile.py:115-117 | The number of slots packed is the index of the first `None`, or the end of the shorter list. |
| ItemSerial.PackStopsAtNone | borderlands/savefile.py:116-117 | Nothing after the first `None` affects the serial. |
| ItemSerial.PackIgnoresExtraValues | borderlands/savefile.py:115 | Values beyond the 17 slots are ignored. |
| ItemSerial.PackAgree | borderlands/savefile.py:115-124 | Two value lists with the same packed prefix pack to the same result. |
| ItemSerial.PackSuccess | borderlands/savefile.py:112-128 | A successful pack is the padded OR of the packed slots. |
| ItemSerial.PackedValue | borderlands/savefile.py:112-128 | For in-range values the pack succeeds, and the packed integer is the slots' sum below the padding. |
| ItemSerial.UnpackItemValues | borderlands/savefile.py:130-145 | The unpacking loop returns exactly `Unpack(w, data)`. |
| ItemSerial.UnpackSlots | borderlands/savefile.py:131-145 | For any width table the loop computes the slots of `UnpackFrom`. A slot that ends past the data is `None` and does not advance the position. |
| ItemSerial.ReadSlot | borderlands/savefile.py:140-143 | The byte fold over `data[j>>3 : (i>>3)-1 : -1]` followed by the shift and mask `~(0xFF << size)` gives the `size` bits of the unpadded data starting at bit i - 8. |
| ItemSerial.UnpackInRange | borderlands/savefile.py:143 | Every value read fits its slot's width. |
| ItemSerial.UnpackComplete | borderlands/savefile.py:135-144 | With all slot bits present, every slot is read, holding the bits at its offset. |
| ItemSerial.UnpackCompleteInRange | borderlands/savefile.py:135-144 | Data that holds all slot bits unpacks to a complete, in-range item. |
| ItemSerial.PackUnpackRoundTrip | borderlands/savefile.py:112-145 | A complete item whose values fit their widths packs successfully and unpacks to itself. |
| ItemSerial.PackIsCanonical | borderlands/savefile.py:125-128 | A complete in-range item packs to exactly `ByteLength(TotalBits)` bytes, with every bit above the last slot set. |
| ItemSerial.UnpackPackRoundTrip | borderlands/savefile.py:112-145 | Unpacking a canonical serial and packing it again gives back the same bytes. |
| ByteStrings.EncodeI32BE | borderlands/savefile.py:149 | `>i` packs a key exactly when it lies in the signed 32-bit range, as 4 bytes that decode back to the key. |
| ByteStrings.EncodeDecodeI32BE | borderlands/savefile.py:153 | Every 4 bytes decoded as `>i` encode back to themselves. |
| ItemCodec.HeaderByteSucceeds | borderlands/savefile.py:149 | The header byte can be written exactly when the flag is 0 or 1 and the struct version fits a byte. A negative flag or a larger OR is struct.error. |
| ItemCodec.HeaderByteFields | borderlands/savefile.py:149-154 | With a version below 128, the header byte is `version + 128 * is_weapon`, and `>> 7` reads the weapon flag back. |
| ItemCodec.ParseHeader | borderlands/savefile.py:153 | Unpacking the header succeeds exactly when there are at least five bytes. |
| ItemCodec.ParseHeaderOf | borderlands/savefile.py:149-153 | A written header reads back as its byte and key. |
| ItemCodec.WeaponBit | borderlands/savefile.py:154 | The weapon flag is the header byte shifted right by seven. |
| ItemCodec.WrapItemSucceeds | borderlands/savefile.py:147-150 | For any integer flag and values, wrapping succeeds exactly when the flag is 0 or 1, packing succeeds, the version fits a byte and the key fits 32 bits. A packing failure surfaces as IndexError. A flag of -1 or -2 whose values pack fails at the header with struct.error. |
| ItemCodec.UnwrapItem | borderlands/savefile.py:152-156 | A successful unwrap yields one entry per slot. |
| ItemCodec.UnwrapItemFails | borderlands/savefile.py:153 | Unwrapping fails exactly on data shorter than five bytes. |
| ItemCodec.UnwrapHeaderThenBody | borderlands/savefile.py:152-156 | A header followed by a body unwraps to the header's flag and key and to the slots of the deobfuscated body past its first two bytes. |
| ItemCodec.WrapUnwrapItem | borderlands/savefile.py:147-156 | A complete in-range item wrapped with a version below 128 and a 32-bit key unwraps to its flag, values and key. This assumes the obfuscation inverts itself. |
| ItemCodec.Split | borderlands/savefile.py:186-187 | `lib = x >> bits; asset = x & ~(lib << bits)` yields an asset below `2^bits` with `lib * 2^bits + asset == x`. |
| ItemCodec.Join | borderlands/savefile.py:205 | `(lib << bits) \| asset` is `lib * 2^bits + asset` when the asset fits. |
| ItemCodec.JoinSplit | borderlands/savefile.py:186-205 | Joining a split value gives the value back. |
| ItemCodec.SplitJoin | borderlands/savefile.py:186-205 | Splitting a joined pair whose asset fits gives the pair back. |
| ItemCodec.SplitParts | borderlands/savefile.py:189-197 | One entry per part, with `None` exactly where the slot is `None`. |
| ItemCodec.JoinParts | borderlands/savefile.py:207-212 | One entry per part, with `None` exactly where the part is `None`. |
| ItemCodec.JoinSplitParts | borderlands/savefile.py:189-212 | Joining the split parts gives the raw part slots back. |
| ItemCodec.SplitJoinParts | borderlands/savefile.py:189-212 | Splitting joined parts whose assets fit gives the parts back. |
| ItemCodec.InfoValues | borderlands/savefile.py:201-212 | The list `wrap_item_info` builds holds six leading slots followed by one slot per part. |
| ItemCodec.InfoOfOutcome | borderlands/savefile.py:182-198 | `unwrap_item_info` exits exactly when type, balance or manufacturer is missing. Otherwise it yields eleven parts, each `None` exactly when its slot is. |
| ItemCodec.InfoValuesOfInfo | borderlands/savefile.py:172-212 | Splitting an item's slots into item information and recombining them gives the slots back. |
| ItemCodec.InfoOfInfoValues | borderlands/savefile.py:172-212 | Recombining well-formed item information and splitting it again gives it back. |
| ItemCodec.WrapUnwrapItemInfo | borderlands/savefile.py:172-213 | Well-formed item information whose slots fit their widths, wrapped with a valid version and key, unwraps to itself. |
| ItemCodec.PlaceholderExactly | borderlands/savefile.py:400 | Among complete items, the export's skip test holds exactly for `[255, 0, ..., 0]`. |
| ItemCodec.PlaceholderInRange | borderlands/savefile.py:400 | The placeholder fits the widths of either table, so it survives packing and unpacking. |
| SaveEdits.MoneyValues | borderlands/savefile.py:282-311 | Each given currency lands in its own position (0, 1, 2 or 4). Every other position keeps its value, the length is kept, and the only error is IndexError. |
| SaveEdits.MoneyFails | borderlands/savefile.py:299-310 | `_set_money` raises IndexError exactly when a given currency's position is past the end of the list. |
| SaveEdits.MoneyIdempotent | borderlands/savefile.py:282-311 | Setting the same currencies a second time changes nothing. |
| SaveEdits.Player.constructor | borderlands/savefile.py:294-339 | The record holds the given currency list, feature and notification payloads, and challenge list. |
| SaveEdits.Player.SetMoney | borderlands/savefile.py:282-311 | On success the currency list becomes `MoneyValues`. On IndexError, or with no currency given, it is untouched. The other fields are untouched either way. |
| SaveEdits.Flagged | borderlands/savefile.py:326-329 | After `b += b"\x01"` unless 1 is present, the flag is present and the old bytes are a prefix. At most one byte is added, and bytes already flagged are left alone. |
| SaveEdits.FlaggedIdempotent | borderlands/savefile.py:313-331 | A second `_unlock_features` leaves both fields as the first left them. |
| SaveEdits.Player.UnlockFeatures | borderlands/savefile.py:313-331 | With `slaughterdome` in a non-empty unlock dictionary, both fields become present and flagged, an absent field counting as `b''`. Otherwise nothing changes. |
| SaveEdits.Repaired | borderlands/savefile.py:342-345 | The repair keeps the challenge id. |
| SaveEdits.RepairedAll | borderlands/savefile.py:341-345 | The repair keeps the list's length. |
| SaveEdits.RepairTargeted | borderlands/savefile.py:341-345 | Only known challenges at or above 2000000000 change, each to one more than its maximum. Every other entry is kept. |
| SaveEdits.RepairSettles | borderlands/savefile.py:341-345 | When every maximum plus one lies below the threshold, no known challenge stays at or above it. |
| SaveEdits.RepairIdempotent | borderlands/savefile.py:341-345 | For any maxima, repairing the list twice is repairing it once. |
| SaveEdits.Player.FixChallengeOverflow | borderlands/savefile.py:333-347 | When enabled, the in-place loop leaves the challenge list equal to `RepairedAll`. Otherwise the list is untouched. The other fields are untouched either way. |
| SaveEdits.ZipPrefixShape | borderlands/savefile.py:160 | The first n pairs name exactly the first n keys. With distinct keys there are n entries, each holding the value at its position. |
| SaveEdits.UnwrapBlackMarketShape | borderlands/savefile.py:158-160 | `dict(zip(keys, sdu))` names the first min(\|keys\|, \|sdu\|) keys, each with its own value when the keys are distinct. |
| SaveEdits.WrapBlackMarket | borderlands/savefile.py:162-164 | The list has one entry per key of the first `len(value)` names, in key order. KeyError occurs exactly when one of those names is missing. |
| SaveEdits.BlackMarketListRoundTrip | borderlands/savefile.py:158-164 | With distinct keys, a list no longer than the key table survives unwrap then wrap. |
| SaveEdits.BlackMarketMapRoundTrip | borderlands/savefile.py:158-164 | With distinct keys, a dictionary that wrapping accepts and that is no larger than the key table survives wrap then unwrap. |
| Config.ModeOfName | borderlands/config.py:89 | A word that names a choice is that choice's spelling. |
| Config.ModeNamesRoundTrip | borderlands/config.py:89 | Every `-o` choice is read back from its spelling. |
| Config.ResolveOutput | borderlands/config.py:129-146 | Without an output file, only `savegame` and `none` pass, and both become `none`. With one, only `none` is refused. Each refusal carries the source's message. |
| Config.ResolvedIsConsistent | borderlands/config.py:129-146 | After the check the format is `none` exactly when there is no output file, and checking again changes nothing. |
| Config.NewDictAction | borderlands/config.py:51-57 | Any `nargs` is refused with "nargs is not allowed". Otherwise the action keeps its option strings and destination. |
| Config.DictAfter | borderlands/config.py:59-67 | The stored dictionary maps the value to `True`. It keeps the current dictionary's other entries, or starts empty when the attribute is not a dictionary. |
| Config.CollectsChoices | borderlands/config.py:59-67 | Giving the option one or more times from its `None` default collects exactly the values given, each mapped to `True`. |
| Config.CollectsFrom | borderlands/config.py:59-67 | From an all-`True` dictionary, further calls add their values and keep the rest. |
| Config.Config.constructor | borderlands/config.py:17-19 | A fresh configuration has output `savegame`, output file `-` and no attributes. |
| Config.Config.CheckOutput | borderlands/config.py:129-146 | The format becomes the one `ResolveOutput` gives, or stays put on the usage error it reports. |
| Config.Config.SeedDefault | borderlands/config.py:124 | Before the command line is read, an action's missing attribute is set to its `None` default and an existing one is kept, so the action can then read it. |
| Config.Config.ApplyDictAction | borderlands/config.py:59-67 | The attribute becomes `DictAfter` of its old value. A missing attribute fails with AttributeError and changes nothing. |

## Left out

- The save envelope is not modelled: `unwrap_player_data`/`wrap_player_data`, covering the SHA-1 digest, LZO compression and Huffman coding. Its trusted libraries are outside the model.
- The protobuf encoding of the player record, of the currency list and of the black-market list is not modelled. The model starts from the decoded lists.
- Challenge decoding is not modelled: `unwrap_challenges`/`wrap_challenges` and `get_max` are outside it. Each known challenge's maximum enters as a map from id to maximum.
- The item body obfuscation (`create_body`, `xor_data`, `rotate_data_right`) enters as function parameters. The round trips assume only that deobfuscation undoes it.
- The `_base64` entry of `unwrap_item_info`, JSON and text export, console logging and all file I/O are left out as I/O.
- The argparse parser setup is left out, apart from the `-o` choices, the output rule and the seeding of an action's missing attribute with its default.
- `Config.finish` is left out: its same-file test calls `os.path.abspath` on the file system.
- `base_save_edit.py` is not part of this model: it is driver code that only sequences the parts above.
- `_reset_challenge_or_mission` is an empty stub in the source, so there is nothing to model.
- ItemCodec.WrapItemInfo: the item-information record holds a flag of 0 or 1 and nonnegative fields, so a record read from JSON with another flag or a negative field is not a value of it. `WrapItem`, which takes any integers, models how such inputs fail.
- The bytes that a negative or overflowing value ORs into the buffer before the IndexError are not modelled: the exception discards the buffer.
- SaveEdits.Player.UnlockFeatures: only the first entry of fields 23 and 24 is modelled (`player[23][0][1]`). The wire type of the entry it writes is not modelled.
- SaveEdits.Player.SetMoney: only the decoded values of field 6 are modelled, not the protobuf wire type it writes.
- Config.Config.ApplyDictAction: `getattr` on a namespace that lacks the attribute is modelled as a `MissingAttribute` failure. Attributes other than dictionaries fall together as one "other" value.
