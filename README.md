# GivEnergy Modbus core, modelled in Dafny

This project models the core of the `givenergy-modbus` client library. That core has five parts:

- **The outer frame.** Every message starts with an 8-byte header. Its layout follows the MBAP header of section 3.1.3 of the MODBUS Messaging on TCP/IP Implementation Guide V1.0b. The values are fixed and non-standard: transaction id 0x5959, protocol id 1, unit id 1, function code 2.
- **The transparent payload.** After the header come:
  - the data adapter serial and an 8-byte padding;
  - the slave address and the inner function code;
  - a subset of the fields serial, base register, register count and register values, chosen by flags;
  - a CRC.
  The error bit 0x80 on the inner function code follows section 7 of the MODBUS Application Protocol Specification V1.1b3. Construction validates the fields. The "shape hash" pairs requests with responses.
- **The register model.** It has:
  - `HR`/`IR` register keys;
  - the integer and string converters;
  - the recipe a register getter applies;
  - the register cache, which reads 0 for a missing key, and its JSON key parser;
  - `TimeSlot`, with its `HHMM` representation and a membership test that wraps past midnight.
- **The plant.** It keeps one register cache per slave address and updates it from incoming responses. There are two plants: the synchronous one and the asynchronous one.
- **The commands.** These build ordered lists of requests: refreshing the plant, writing time slots, dates and charge targets, and the `set_`/`reset_` calls made up by name.

Modules, one per source file:

- `Wrappers` (`wrappers.dfy`): `Option` and `Result`, standing for `None` returns and Python exceptions
- `Exceptions` (`exceptions.dfy`): the exceptions the core raises
- `Decimal` (`decimal.dfy`): the parts of `str(int)`, `f"{n:04d}"` and `int(str)` the core relies on
- `Codec` (`codec.dfy`): the payload encoder and decoder: big-endian fields, one little-endian word, fixed-length strings
- `Pdu` (`pdu_base.dfy`): `givenergy_modbus/pdu/base.py`
- `Transparent` (`transparent.dfy`): `givenergy_modbus/pdu/transparent.py`
- `Model` (`model.dfy`): `givenergy_modbus/model/__init__.py`
- `Registers` (`registers.dfy`): `givenergy_modbus/model/register.py`
- `RegisterCaches` (`register_cache.dfy`): `givenergy_modbus/model/register_cache.py`
- `RegisterGetters` (`register_getter.dfy`): `RegisterGetter` in `givenergy_modbus/model/register.py`
- `Plant` (`plant.dfy`): `givenergy_modbus/model/plant.py`
- `AsyncPlant` (`async_plant.dfy`): `givenergy_modbus_async/model/plant.py`
- `Commands` (`commands.dfy`): `givenergy_modbus/client/commands.py`

Stateful code is modelled as classes and methods:
- the encoder and decoder objects;
- the two plants;
- `RegisterGetter`.

Each method is proved equal to a specification function. The properties are proved about those functions. Code that only computes a value is modelled as functions.

## Model

| member | source | states |
|---|---|---|
| `Codec.Encoder.AddUInt` | givenergy_modbus/pdu/transparent.py:149-158 | appends the `n`-byte big-endian encoding of a value to the payload |
| `Codec.Encoder.AddLE16` | givenergy_modbus/pdu/transparent.py:165 | appends a 16-bit word least significant byte first |
| `Codec.Encoder.AddString` | givenergy_modbus/pdu/base.py:53 | appends a 10-character string, one byte per character |
| `Codec.Decoder.UInt` | givenergy_modbus/pdu/base.py:78-100 | reads an `n`-byte big-endian number and advances the cursor; reports a short frame instead of a value |
| `Codec.Decoder.String` | givenergy_modbus/pdu/transparent.py:174 | reads a fixed-length string and advances the cursor; reports a short frame |
| `Codec.UnBEOfBE` | givenergy_modbus/pdu/transparent.py:156-158 | big-endian decoding inverts big-endian encoding |
| `Codec.ReadUIntOfBE` | givenergy_modbus/pdu/transparent.py:191-194 | reading back an encoded field gives the value and exactly the bytes after it |
| `Codec.ReadStringOfBytes` | givenergy_modbus/pdu/transparent.py:174 | reading back an encoded string gives the string and the bytes after it |
| `Codec.LE16AsBE` | givenergy_modbus/pdu/transparent.py:165 | a little-endian word is the big-endian encoding of the byte-swapped word |
| `Pdu.Header` | givenergy_modbus/pdu/base.py:56-58 | the header is 8 bytes long |
| `Pdu.Frame` | givenergy_modbus/pdu/base.py:55-60 | a frame is 8 bytes longer than its inner frame |
| `Pdu.HeaderOfFrame` | givenergy_modbus/pdu/base.py:56-58 | every frame `encode` builds passes all the header checks of `decode_bytes`, which continue with exactly the inner frame |
| `Pdu.RejectsIds` | givenergy_modbus/pdu/base.py:78-84 | a transaction id other than 0x5959, or a protocol id other than 1, is an invalid frame naming the id |
| `Pdu.RejectsLengthAndUnit` | givenergy_modbus/pdu/base.py:86-98 | a length field different from the remaining byte count is rejected; so is a unit id other than 0 and 1 |
| `Pdu.HeaderLength` | givenergy_modbus/pdu/base.py:86-101 | a frame that passes the header checks is at least 8 bytes; its length field counts every byte after the first 6, and decoding goes on from byte 8 |
| `Transparent.Code` | givenergy_modbus/pdu/transparent.py:39-43 | every inner function code fits below the error bit |
| `Transparent.LutInverse` | givenergy_modbus/pdu/transparent.py:362-375 | the decoding tables give kind `k` for a direction and code exactly when `k` has that direction and code |
| `Transparent.Validate` | givenergy_modbus/pdu/transparent.py:91-99 | validation returns the message unchanged or fails |
| `Transparent.ValidateIsValid` | givenergy_modbus/pdu/transparent.py:91-99 | validation succeeds exactly for messages whose base is in 0..0xFFFF, whose count is in 1..60 and whose non-empty values match the count, for the fields the kind carries |
| `Transparent.TranslateAliases` | givenergy_modbus/pdu/transparent.py:322-331 | an explicit `register_count` is refused; otherwise `register` becomes the base register, `value` the one-element value list, both aliases disappear, and every other argument is kept |
| `Transparent.Construct` | givenergy_modbus/pdu/transparent.py:75-99 | a constructed message has the requested kind and is valid, keeps the supplied serials and slave address (with the class defaults), and a write response given `register` or `value` is an AttributeError |
| `Transparent.ConstructValid` | givenergy_modbus/pdu/transparent.py:75-99 | every constructed message is valid; for kinds other than the write messages, construction succeeds exactly when the supplied fields are valid |
| `Transparent.WriteRequestAliases` | givenergy_modbus/pdu/transparent.py:322-331 | `register` becomes the base register and `value` the single value; an out-of-range register fails on `base_register`; an explicit count is refused |
| `Transparent.WordsAppend` | givenergy_modbus/pdu/transparent.py:159-161 | encoding one more value appends its two big-endian bytes |
| `Transparent.Inner` | givenergy_modbus/pdu/transparent.py:140-165 | the inner frame fits the 16-bit length field |
| `Transparent.EncodeLayout` | givenergy_modbus/pdu/transparent.py:140-165 | a frame is the header, then the serial, the padding, the body (slave, code, serial, base, count, values), and last the CRC of the body written little-endian |
| `Transparent.AddWords` | givenergy_modbus/pdu/transparent.py:159-161 | the loop over the values appends each value as a big-endian word, in order |
| `Transparent.AddFields` | givenergy_modbus/pdu/transparent.py:153-161 | appends the serial, base, count and values the kind carries, in that order, each encoded as its field |
| `Transparent.Encode` | givenergy_modbus/pdu/base.py:50-60 | encoding gives the header followed by the inner frame; a kind that carries the inverter serial fails when that serial is missing |
| `Transparent.EncodeInner` | givenergy_modbus/pdu/transparent.py:140-165 | the frame builder and the CRC builder together produce the inner frame: serial, padding, body, then the CRC of the body little-endian |
| `Transparent.ReadWords` | givenergy_modbus/pdu/transparent.py:195-198 | reading `n` words gives exactly `n` values or a short-frame failure |
| `Transparent.ReadWordsOfWords` | givenergy_modbus/pdu/transparent.py:195-198 | reading back encoded values gives those values and the bytes after them |
| `Transparent.ReadPreambleOf` | givenergy_modbus/pdu/transparent.py:174-177 | the preamble reads back as the serial, padding, slave and code that were written |
| `Transparent.DecodeFunctionCode` | givenergy_modbus/pdu/transparent.py:177-185 | a code that is not in the table fails the lookup; a decoded message has the error flag exactly when bit 0x80 was set, and its kind has the code without that bit |
| `Transparent.Decode` | givenergy_modbus/pdu/base.py:74-117 | decoding a frame with the decoder object gives the specified result |
| `Transparent.DecodeMainFunction` | givenergy_modbus/pdu/transparent.py:167-202 | decoding the payload with the cursor gives the specified result |
| `Transparent.DecodeKindAndFields` | givenergy_modbus/pdu/transparent.py:178-202 | after the preamble, the error bit is stripped, the kind is looked up (a missing code fails), and the flagged fields and the check are read and passed to the constructor |
| `Transparent.DecodePreamble` | givenergy_modbus/pdu/transparent.py:174-177 | the cursor reads the preamble, or fails on a short frame |
| `Transparent.DecodeFields` | givenergy_modbus/pdu/transparent.py:187-200 | the cursor reads the flagged fields and the check in order |
| `Transparent.DecodeWords` | givenergy_modbus/pdu/transparent.py:195-198 | the loop reads `count` words, none for a negative count |
| `Transparent.ReadFieldsOf` | givenergy_modbus/pdu/transparent.py:187-200 | the encoded optional fields, for any set of flags, read back as the fields that were written, followed by the check |
| `Transparent.ConstructOfWire` | givenergy_modbus/pdu/transparent.py:202 | constructing from the decoded attributes gives back the message with the decoded check |
| `Transparent.AfterPreambleOfMessage` | givenergy_modbus/pdu/transparent.py:178-202 | the encoded fields and check word of a message, read after its preamble, give back the message with the check word as read |
| `Transparent.DecodeMainOfInner` | givenergy_modbus/pdu/transparent.py:167-202 | decoding an inner frame gives back the message, with `check` set to the byte-swapped CRC |
| `Transparent.RoundTrip` | givenergy_modbus/pdu/base.py:50-117 | decoding the encoding of a message recovers every field except `check`, which reads as the byte-swapped CRC and is never compared. The message must satisfy `RoundTrips`: it is valid and fits its fields, its `error` flag is off (encoding never writes the 0x80 bit, transparent.py:152), and fields its kind does not carry are in canonical form (no inverter serial, base -1, the class's count, no values) |
| `Transparent.TrailingBytesIgnored` | givenergy_modbus/pdu/base.py:111-117 | bytes after the check, counted in the length field, do not cause rejection |
| `Transparent.ShapeHash` | givenergy_modbus/pdu/transparent.py:204-238 | fails, with AssertionError, exactly for kinds without a base register |
| `Transparent.ShapeOfResponse` | givenergy_modbus/pdu/transparent.py:204-238 | a request and its response hash equal, whatever their values |
| `Transparent.ShapeHashInjective` | givenergy_modbus/pdu/transparent.py:217-238 | with slave < 1000 and count < 100, equal hashes mean equal slave, code, count and base |
| `Transparent.Digits` | givenergy_modbus/pdu/transparent.py:222-238 | each component can be read back from its decimal digits of the hash |
| `Transparent.HasSameShape` | givenergy_modbus/pdu/base.py:123-136 | a non-PDU argument raises NotImplementedError; a message without a shape hash fails its assertion; otherwise the result is whether the shape hashes are equal |
| `Transparent.Enumerate` | givenergy_modbus/pdu/transparent.py:243-250 | yields exactly `len(values)` pairs `(class(base + i), values[i])` in order; fails its assertion without base or values |
| `Decimal.ValueOfNatToString` | givenergy_modbus/model/register.py:27 | the decimal text of a number denotes that number |
| `Decimal.ZeroPadValue` | givenergy_modbus/model/__init__.py:51 | zero padding keeps the value of a digit string |
| `Decimal.ParseIntToString` | givenergy_modbus/model/register_cache.py:45 | `int(str(n)) == n` for every integer |
| `Decimal.IntToStringInjective` | givenergy_modbus/model/register.py:27 | distinct integers have distinct decimal texts |
| `Decimal.ParseDigits` | givenergy_modbus/model/__init__.py:52-53 | `int` of a digit string is its value |
| `Decimal.ParseNegative` | givenergy_modbus/model/__init__.py:52 | `int` of a minus sign and digits is the negated value |
| `Decimal.ParseIntSeparators` | givenergy_modbus/model/register_cache.py:45 | `int("\x1c5")` is a ValueError, while an ASCII space or U+3000 before the digits is skipped |
| `Model.MakeTime` | givenergy_modbus/model/__init__.py:45 | a constructed time is a valid time of day |
| `Model.BeforeIsMinutes` | givenergy_modbus/model/__init__.py:78-81 | comparing times compares their minutes since midnight |
| `Model.FromComponents` | givenergy_modbus/model/__init__.py:40-45 | the slot runs from `(h1, m1)` to `(h2, m2)`; an out-of-range component is a ValueError |
| `Model.SplitLast2` | givenergy_modbus/model/__init__.py:52-53 | the digits before the last two give value / 100, and the last two give value % 100 |
| `Model.SplitIntRepr` | givenergy_modbus/model/__init__.py:50-53 | an integer's 4-digit text splits into its hour and minute parts |
| `Model.FromRepr` | givenergy_modbus/model/__init__.py:48-58 | a slot read from two representations has valid times; any failure is a ValueError |
| `Model.FromReprOfEncoded` | givenergy_modbus/model/__init__.py:48-58 | `from_repr(100*h1+m1, 100*h2+m2)` is `from_components(h1, m1, h2, m2)` |
| `Model.FromReprInts` | givenergy_modbus/model/__init__.py:48-58 | `from_repr` of integers in closed form: hour `n // 100` and minute `n % 100`, with the sign on the hour for negative `n` |
| `Model.ContainsIsArc` | givenergy_modbus/model/__init__.py:60-81 | a time is in a slot exactly when it lies on the clockwise arc from start to end, including the wrap past midnight |
| `Model.Contains` | givenergy_modbus/model/__init__.py:60-81 | an empty slot, or an argument that is neither a time nor an integer, contains nothing; it fails, with ValueError, exactly for an integer whose hour or minute is out of range |
| `Model.ContainsComplement` | givenergy_modbus/model/__init__.py:78-81 | for start ≠ end, a slot and its reverse split the day between them |
| `Model.ContainsEnds` | givenergy_modbus/model/__init__.py:78-81 | the start is inside a slot and the end is outside |
| `Model.ContainsInt` | givenergy_modbus/model/__init__.py:69-70 | an integer `100*h + m` is tested as the time `h:m`; an invalid hour raises ValueError |
| `Model.EnumLookupTotal` | givenergy_modbus/model/__init__.py:23-28 | every value maps to a member, known members to themselves and the rest to UNKNOWN |
| `Registers.RegisterNameInjective` | givenergy_modbus/model/register.py:26-36 | two registers have the same name exactly when they are equal (same type and index) |
| `Registers.RegisterNameExamples` | givenergy_modbus/model/register.py:26-27 | `HR(22)` is named "HR_22" and `IR(99)` "IR_99" |
| `Registers.Int16Word` | givenergy_modbus/model/register.py:127-132 | int16 of a word is in -32768..32767, congruent to it mod 65536, and unchanged below 0x8000 |
| `Registers.Int16OfEncoding` | givenergy_modbus/model/register.py:127-132 | int16 inverts the two's-complement encoding |
| `Registers.Duint8` | givenergy_modbus/model/register.py:135-139 | fails exactly without an index or for an index outside the pair |
| `Registers.Duint8Halves` | givenergy_modbus/model/register.py:135-139 | a word is 256 times its high byte plus its low byte, both < 256 |
| `Registers.Uint32Split` | givenergy_modbus/model/register.py:142-145 | `uint32(h, l)` has `h` as its high word and `l` as its low word |
| `Registers.StringConv` | givenergy_modbus/model/register.py:161-170 | the result has no NUL; the conversion fails exactly when a register does not fit 16 bits |
| `Registers.WordOf` | givenergy_modbus/model/register.py:164-166 | `v.to_bytes(2)` succeeds exactly for booleans and integers in 0..0xFFFF; an integer out of range is an OverflowError, anything else an AttributeError |
| `Registers.WordsOf` | givenergy_modbus/model/register.py:164-166 | the values are converted one after another: the list succeeds exactly when every value does, and a failure is that of the first value that fails |
| `Registers.WordsOfIntVals` | givenergy_modbus/model/register.py:161-170 | on integer registers the conversion succeeds exactly when all fit 16 bits, and is an OverflowError otherwise |
| `Registers.StringArgumentOrder` | givenergy_modbus/model/register.py:161-170 | arguments are converted in order: `[70000, "x"]` is an OverflowError and `["x", 70000]` an AttributeError |
| `Registers.StringOfPacked` | givenergy_modbus/model/register.py:161-170 | registers holding a string's bytes convert to the string with every NUL dropped and letters upper-cased |
| `Registers.SerialRoundTrip` | givenergy_modbus/model/register.py:161-170 | a serial of digits and capitals reads back unchanged |
| `Registers.StringExample` | givenergy_modbus/model/register.py:161-170 | `[16967, 12594, 13108, 18229, 13879]` reads as "BG1234G567" |
| `Registers.StringDropsInnerNul` | givenergy_modbus/model/register.py:167 | a NUL inside the string is dropped too, not just a trailing one |
| `Registers.FirmwareVersionRoundTrip` | givenergy_modbus/model/register.py:180-183 | calling the firmware-version converter on two non-negative integers gives "D0.<dsp>-A0.<arm>", and that text parses back to both versions |
| `Registers.FirmwareVersionOfList` | givenergy_modbus/model/register.py:180-183 | an argument that is not an integer is rendered as `str` renders it: a list `[1, 2]` and 5 give "D0.[1, 2]-A0.5" |
| `Registers.InverterMaxPower` | givenergy_modbus/model/register.py:186-200 | a known device type gives a power from 3000 to 11000 |
| `Registers.InverterMaxPowerKnown` | givenergy_modbus/model/register.py:188-200 | "2001" gives 5000, "4004" gives 11000, an unknown code gives nothing |
| `Registers.DateTimeConv` | givenergy_modbus/model/register.py:227-231 | the year is the register plus 2000 and the other fields are copied; it fails exactly on an invalid date |
| `Registers.AsIntsOfIntVals` | givenergy_modbus/model/register.py:292-295 | integer arguments pass through the converter argument list unchanged |
| `Registers.Apply` | givenergy_modbus/model/register.py:120-231 | a fixed-arity converter given the wrong number of arguments is a TypeError; a `None` argument makes the converter return `None`; an enumeration never fails on one argument and gives a member or UNKNOWN; `duint8` without an index fails; `string` returns `None` or a string |
| `Registers.ApplyFixed` | givenergy_modbus/model/register.py:120-231 | each converter's result type: integers from `uint16`, `int16` and `uint32`, a boolean from `bool` (never failing), a string from `firmware_version` (never failing), `None` or a power from 3000 to 11000 from `inverter_max_power`, a valid slot from `timeslot`, a valid date and time from `datetime` |
| `Registers.TimeSlotOf` | givenergy_modbus/model/register.py:148-151 | a slot built from two arguments has valid start and end times |
| `Registers.DateTimeOf` | givenergy_modbus/model/register.py:227-231 | a date and time built from six arguments is valid |
| `Registers.ApplyFixedArity` | givenergy_modbus/model/register.py:120-231 | with the right number of arguments, none of them `None`, calling a fixed-arity converter runs its body |
| `Registers.TimeSlotConv` | givenergy_modbus/model/register.py:148-151 | the time-slot converter on two integers or strings is `TimeSlot.from_repr` of them |
| `Registers.Recipe` | givenergy_modbus/model/register.py:290-306 | no conversion gives the raw list; a failing pre-conversion is the result; without a post-conversion the result is the pre-conversion applied to the registers followed by its extra arguments; a post-conversion alone is applied to the list; with both, the post-conversion is applied to the pre-conversion's result followed by its own extra arguments |
| `Registers.RecipeUint32` | givenergy_modbus/model/register.py:292-295 | two registers with the plain `uint32` pre-conversion give `uint32(h, l)` |
| `Registers.RecipeDuint8` | givenergy_modbus/model/register.py:292-295 | `(duint8, 1)` gets its extra argument after the register and gives the low byte |
| `Registers.RecipeBool` | givenergy_modbus/model/register.py:292-306 | the post-conversion `bool` is applied to the result of the pre-conversion `uint16` |
| `Registers.RecipeStringArgs` | givenergy_modbus/model/register.py:290-295 | the string recipe is `string` applied to the register values |
| `Registers.RecipeString` | givenergy_modbus/model/register.py:290-295 | the string recipe is the string conversion of the registers |
| `RegisterCaches.NewCache` | givenergy_modbus/model/register_cache.py:19-22 | built from a dict it holds exactly those entries; built from None it is empty |
| `RegisterCaches.Read` | givenergy_modbus/model/register_cache.py:22 | a present register reads its value, an absent one reads 0 |
| `RegisterCaches.ReadAfterDefault` | givenergy_modbus/model/register_cache.py:22 | inserting the default 0 on a read changes no later read |
| `RegisterCaches.Find` | givenergy_modbus/model/register_cache.py:37-41 | `str.find`: the first position of the character, or -1 when it is absent |
| `RegisterCaches.ParseKey` | givenergy_modbus/model/register_cache.py:36-47 | a ValueError exactly for a key with neither "(" nor ":" after its first character; the only other failure is a KeyError |
| `RegisterCaches.ParseKeyParen` | givenergy_modbus/model/register_cache.py:37-39 | "HR(n)" and "IR(n)" parse to `HR(n)`/`IR(n)` |
| `RegisterCaches.ParseKeyColon` | givenergy_modbus/model/register_cache.py:40-41 | "HR:n" and "IR:n" parse to `HR(n)`/`IR(n)` |
| `RegisterCaches.ParseKeyRejects` | givenergy_modbus/model/register_cache.py:42-43 | a key with neither "(" nor ":" after its first character is a ValueError, and so is a register's own "HR_n" name |
| `RegisterCaches.ParseKeyIndexErrors` | givenergy_modbus/model/register_cache.py:44-47 | an index that is not an integer drops the entry; an unknown type is a KeyError, which is not caught |
| `RegisterCaches.ColonKey` | givenergy_modbus/model/register_cache.py:40-41 | a colon after a two-letter tag splits the key there |
| `RegisterCaches.ObjectHook` | givenergy_modbus/model/register_cache.py:32-49 | the loop over the items gives the specified result |
| `RegisterCaches.CollectSucceeds` | givenergy_modbus/model/register_cache.py:36-48 | the hook succeeds exactly when every key parses without an uncaught error |
| `RegisterCaches.CollectEntries` | givenergy_modbus/model/register_cache.py:36-48 | the result holds exactly the registers some item names, each with the value of the last item naming it |
| `RegisterCaches.HookContents` | givenergy_modbus/model/register_cache.py:32-49 | the same, for the hook's own key parser |
| `RegisterCaches.FromItems` | givenergy_modbus/model/register_cache.py:29-51 | the cache from parsed JSON items holds exactly the registers the items name |
| `RegisterGetters.ReadAll` | givenergy_modbus/model/register.py:285 | reads each of the definition's registers in order, 0 where absent |
| `RegisterGetters.WithDefaultsReads` | givenergy_modbus/model/register.py:285 | the reads insert 0 for the absent registers only, and change no value any later read sees |
| `RegisterGetters.RegisterGetter.Get` | givenergy_modbus/model/register.py:279-306 | an unknown name gives the default and leaves the cache alone; a known one gives the recipe applied to the registers' values, and the cache gains the defaults |
| `Plant.CacheAddress` | givenergy_modbus/model/plant.py:72-84 | addresses from 0x32 up are kept; an input response from base 60 keeps its address; otherwise 0x11 and 0x30 become 0x32 |
| `Plant.Store` | givenergy_modbus/model/plant.py:95-107 | only a write response with a non-zero register and no values fails, with IndexError; no register disappears; exactly the writes to a non-zero register are reported, with the register holding the written value; other kinds change nothing |
| `Plant.Step` | givenergy_modbus/model/plant.py:59-107 | an ignored message changes nothing; no cache disappears and the battery count is kept; the only errors are AttributeError and IndexError |
| `Plant.WriteBlock` | givenergy_modbus/model/plant.py:95-101 | the block's registers hold the values, every other entry is kept, and no other key appears |
| `Plant.WriteBlockStep` | givenergy_modbus/model/plant.py:97-101 | writing one more value is one more single-register assignment |
| `Plant.Plant.constructor` | givenergy_modbus/model/plant.py:50-53 | without caches the plant starts with one empty cache at 0x32 |
| `Plant.Plant.Update` | givenergy_modbus/model/plant.py:59-107 | the new plant state and the reported write are those of the specified update step |
| `Plant.Plant.WriteRegisters` | givenergy_modbus/model/plant.py:95-101 | the register-by-register loop leaves the cache as the block write, and nothing else changes |
| `Plant.Plant.StoreResponse` | givenergy_modbus/model/plant.py:95-107 | the cache of the address is updated as its kind requires, and nothing else changes |
| `Plant.IgnoredChangesNothing` | givenergy_modbus/model/plant.py:61-69 | a non-transparent, null or error response leaves the state unchanged |
| `Plant.StepCaches` | givenergy_modbus/model/plant.py:86-90 | at most the cache of the response's address is added, and the other caches are kept |
| `Plant.StepSerials` | givenergy_modbus/model/plant.py:92-93 | both serial numbers are taken from every handled response |
| `Plant.StepRead` | givenergy_modbus/model/plant.py:95-101 | a read response sets `cache[T(base+i)] = values[i]` for every `i` and keeps every other entry |
| `Plant.StepWrite` | givenergy_modbus/model/plant.py:102-107 | a write to register 0 is ignored; any other write sets `HR(register)` and is reported to `holding_register_updated` |
| `Plant.StepBatteryResponse` | givenergy_modbus/model/plant.py:96-107 | a battery input response stores nothing |
| `Plant.StepKeepsInverter` | givenergy_modbus/model/plant.py:86-107 | the inverter's cache, once present, stays |
| `Plant.LeadingValid` | givenergy_modbus/model/plant.py:115-121 | the corrected count lies between the start and 6 |
| `Plant.LeadingValidMeaning` | givenergy_modbus/model/plant.py:115-121 | the corrected count is the number of leading batteries that are present and valid, and the next one is missing or invalid |
| `Plant.CheckBattery` | givenergy_modbus/model/plant.py:116-120 | a missing cache counts as invalid; the check passes exactly when the cache is present and its validity check answers true; only exceptions other than KeyError and AssertionError escape, exactly as the check raised them |
| `Plant.EscapingMeaning` | givenergy_modbus/model/plant.py:116-121 | an exception escapes exactly when the battery the count stops at raised one that is not caught |
| `Plant.NothingEscapes` | givenergy_modbus/model/plant.py:116-121 | when validity checks raise nothing but KeyError and AssertionError, no exception escapes |
| `Plant.EscapingAfter` | givenergy_modbus/model/plant.py:116-120 | passing valid batteries does not change which exception escapes |
| `Plant.DetectedCount` | givenergy_modbus/model/plant.py:115-121 | the count as written: never more than 5, and below 5 equal to the number of leading valid batteries |
| `Plant.SixBatteriesCountedAsFive` | givenergy_modbus/model/plant.py:115-121 | with six valid batteries the count as written is 5 |
| `Plant.Plant.DetectBatteries` | givenergy_modbus/model/plant.py:109-121 | the loop sets the battery count to the number of leading present and valid caches from 0x32 (the corrected count, see Findings); an exception other than KeyError or AssertionError from a validity check is returned and leaves the count as it was; nothing else changes |
| `Plant.LeadingValidUpTo` | givenergy_modbus/model/plant.py:116-120 | stopping at the first missing or invalid battery `k` gives `k` |
| `Plant.BatteryCaches` | givenergy_modbus/model/plant.py:128-134 | the list holds the caches `0x32 + i` in order; it is a KeyError if one of them is missing |
| `Plant.Plant.InverterCache` | givenergy_modbus/model/plant.py:123-126 | the cache at 0x32, or a KeyError without it |
| `Plant.Plant.Batteries` | givenergy_modbus/model/plant.py:128-134 | the battery caches for the detected number of batteries |
| `Plant.DetectedBatteriesExist` | givenergy_modbus/model/plant.py:115-134 | listing the detected batteries never fails |
| `AsyncPlant.Merge` | givenergy_modbus_async/model/plant.py:74-86 | `dict.update`: new entries replace or join the old, and the other entries are kept |
| `AsyncPlant.Keyed` | givenergy_modbus_async/model/plant.py:73-80 | a response's index-to-value map becomes exactly the registers of the response's type at those indices, each holding its value |
| `AsyncPlant.Numbered` | givenergy_modbus_async/model/plant.py:73-80 | a response's values numbered from its base register: the map's keys are exactly the indices base..base+count-1, and index base+i holds the i-th value |
| `AsyncPlant.MergeIsWriteBlock` | givenergy_modbus_async/model/plant.py:73-80 | merging a response's numbered values equals the synchronous plant's block write |
| `AsyncPlant.CacheAddress` | givenergy_modbus_async/model/plant.py:58-62 | 0x11 and 0x00 become the plant's own address; every other address is kept |
| `AsyncPlant.Store` | givenergy_modbus_async/model/plant.py:73-87 | only a write response with a non-zero register and no values fails, with IndexError; no register disappears; a write to a non-zero register sets it; other kinds change nothing |
| `AsyncPlant.Step` | givenergy_modbus_async/model/plant.py:45-87 | an ignored message changes nothing; no cache disappears; the battery count, the plant address and the HV flag are kept; the only errors are AttributeError and IndexError |
| `AsyncPlant.Plant.constructor` | givenergy_modbus_async/model/plant.py:28-43 | without caches the plant starts with one empty cache at its own address |
| `AsyncPlant.Plant.Update` | givenergy_modbus_async/model/plant.py:45-87 | the new state and result are those of the specified update step |
| `AsyncPlant.Plant.StoreResponse` | givenergy_modbus_async/model/plant.py:73-87 | the cache of the address is merged as its kind requires, and nothing else changes |
| `AsyncPlant.Plant.DetectBatteries` | givenergy_modbus_async/model/plant.py:89-104 | counts from 0x50 for high-voltage plants and from 0x32 otherwise, using the corrected count; an exception other than KeyError or AssertionError propagates and leaves the count as it was |
| `AsyncPlant.Plant.Scan` | givenergy_modbus_async/model/plant.py:95-104 | the loop counts the leading present and valid caches from a given base, or returns the exception that escapes, and changes nothing else |
| `AsyncPlant.Plant.InverterCache` | givenergy_modbus_async/model/plant.py:107-110 | the cache at the plant's address, or a KeyError |
| `AsyncPlant.Plant.Batteries` | givenergy_modbus_async/model/plant.py:112-121 | None exactly when there is no cache at 0x32; otherwise the caches from 0x32 |
| `AsyncPlant.Plant.HighVoltageBatteries` | givenergy_modbus_async/model/plant.py:124-133 | None exactly when there is no cache at 0x50; otherwise the caches from 0x50 |
| `AsyncPlant.Plant.ControlUnit` | givenergy_modbus_async/model/plant.py:135-141 | None exactly when there is no cache at 0x50; otherwise the cache at 0x70, or a KeyError when that one is missing |
| `AsyncPlant.IgnoredChangesNothing` | givenergy_modbus_async/model/plant.py:47-55 | ignored responses leave the state unchanged |
| `AsyncPlant.StepCaches` | givenergy_modbus_async/model/plant.py:64-68 | at most the cache of the response's address is added; the other caches, the count and the plant's address are kept |
| `AsyncPlant.StepReadAsBlock` | givenergy_modbus_async/model/plant.py:73-80 | a read response leaves its cache as the block write of its values |
| `AsyncPlant.StepWrite` | givenergy_modbus_async/model/plant.py:81-87 | a write to register 0 is ignored; any other write sets `HR(register)` |
| `AsyncPlant.StepKeepsInverter` | givenergy_modbus_async/model/plant.py:64-87 | the plant's own cache, once present, stays |
| `Commands.WriteNamedRegister` | givenergy_modbus/client/commands.py:47-50 | a failed lookup is the command's failure; otherwise the request writes the single value to the looked-up register |
| `Commands.Resolve` | givenergy_modbus/client/commands.py:47-50 | a request list turns into messages one by one, in order: it succeeds exactly when every request does, giving the messages in order; a failure carries the error of the first failing request, every earlier one having succeeded |
| `Commands.Dispatch` | givenergy_modbus/client/commands.py:64-72 | a reset is named "reset_X" and a setter "set_X", with `X` a register name; anything else is an AttributeError |
| `Commands.DispatchSet` | givenergy_modbus/client/commands.py:69-72 | "set_X" is a setter exactly when `X` is a register name |
| `Commands.DispatchReset` | givenergy_modbus/client/commands.py:66-68 | "reset_X" with "_slot" in `X` is a reset exactly when `X` is a register name |
| `Commands.OccursInSuffix` | givenergy_modbus/client/commands.py:66 | "_slot" in a name's tail is "_slot" in the name |
| `Commands.SetTimeslot` | givenergy_modbus/client/commands.py:91-107 | writes `<name>_start` then `<name>_end`: for a slot, each time as `100 * hour + minute`; no slot writes two zeros |
| `Commands.TimeslotRoundTrip` | givenergy_modbus/client/commands.py:98-107 | the two values written read back, through `TimeSlot.from_repr`, as the slot itself |
| `Commands.SlotOfEncoded` | givenergy_modbus/client/commands.py:98-107 | a valid slot's encoded start and end read back, through `TimeSlot.from_repr`, as the slot |
| `Commands.ResetSlotRoundTrip` | givenergy_modbus/client/commands.py:98-100 | a reset slot reads back as midnight to midnight |
| `Commands.SetHelper` | givenergy_modbus/client/commands.py:76-86 | a slot goes to the slot writer; any other value is a single write |
| `Commands.Invoke` | givenergy_modbus/client/commands.py:64-72 | a name that is no fabricated command is an AttributeError; a reset must be called without and a setter with an argument, else TypeError; a reset and a slot write two registers, an integer one |
| `Commands.Setter` | givenergy_modbus/client/commands.py:69-86 | `set_X(v)` writes `X` when `X` is a register name, and is an AttributeError otherwise |
| `Commands.Reset` | givenergy_modbus/client/commands.py:66-68 | `reset_X()` writes two zeros to slot `X` when `X` is a register name, and is an AttributeError otherwise |
| `Commands.BatteryReads` | givenergy_modbus/client/commands.py:143-148 | one read of input registers 60..119 per battery address, in order |
| `Commands.RefreshPlantData` | givenergy_modbus/client/commands.py:109-149 | first input registers 0 and 180; on a complete refresh, holding registers 0, 60 and 120 and input registers 120; then the battery reads from 0x32 on. The length is 2+n, or 6+m when complete, and every request reads 60 registers from a multiple of 60 |
| `Commands.RefreshPlantDataDefault` | givenergy_modbus/client/commands.py:109-149 | with the defaults `number_batteries=1` and `max_batteries=5`: 3 requests, or 11 on a complete refresh, the battery reads in address order, and no request addresses anything beyond 0x36 |
| `Commands.RefreshReadResolves` | givenergy_modbus/client/commands.py:113-149 | every refresh request builds a valid read message with its base, count 60 and address |
| `Commands.DisableChargeTarget` | givenergy_modbus/client/commands.py:151-156 | the charge target switched off, then the target set to 100% |
| `Commands.SetInverterReboot` | givenergy_modbus/client/commands.py:172-174 | one write of 100 to `inverter_reboot` |
| `Commands.SetCalibrateBatterySoc` | givenergy_modbus/client/commands.py:176-178 | one write of 1 to `soc_force_adjust` |
| `Commands.SetDischargeModeMaxPower` | givenergy_modbus/client/commands.py:200-202 | battery power mode 0 |
| `Commands.SetDischargeModeToMatchDemand` | givenergy_modbus/client/commands.py:204-206 | battery power mode 1 |
| `Commands.DischargeModesDiffer` | givenergy_modbus/client/commands.py:200-206 | the two discharge modes write the same single register with different values |
| `Commands.SetChargeTarget` | givenergy_modbus/client/commands.py:151-170 | charging on; then the charge target off for 100%, or on for any other target; then the target itself |
| `Commands.SetSystemDateTime` | givenergy_modbus/client/commands.py:224-233 | six writes to the year, month, day, hour, minute and second registers in that order, with the year minus 2000 and the other fields as they are |
| `Commands.SystemDateTimeRoundTrip` | givenergy_modbus/client/commands.py:224-233 | the six values read back, through the `datetime` converter, as the date and time |
| `Commands.SetModeDynamic` | givenergy_modbus/client/commands.py:235-249 | battery power mode 1, reserve 4, discharging off, or an AttributeError for a missing register name |
| `Commands.DefaultDischargeSlotRepr` | givenergy_modbus/client/commands.py:253 | the default first slot is 16:00 to 07:00 |
| `Commands.SetModeStorage` | givenergy_modbus/client/commands.py:251-283 | power mode (0 for export, 1 otherwise), reserve 100, discharging on, slot 1, then slot 2 or its reset; an AttributeError for a missing register name |

## Left out

- Network and file I/O, the framer, the asynchronous client and its retries and timeouts are left out. They are not part of the core and concern concurrency.
- The CRC algorithm is a function parameter (`crc`). The payload encoder and decoder are written as big-endian appends and reads of fixed width. The codec module that defines them is not part of this model.
- `Transparent.Encode` requires an encodable message: serials of 10 one-byte characters, and fields within their widths. Python's `struct` and codec errors for other values are not modelled.
- `decode_string` padding and character set: strings are read one byte per character, without stripping.
- `givenergy_modbus/decoder.py` is not part of this model. It wraps library classes that are not visible.
- The duplicate `RegisterCache` in `givenergy_modbus/model/register.py` is not modelled; the one in `register_cache.py` is.
- The contents of `Inverter.REGISTER_LUT`, `Inverter.lookup_writable_register`, `Battery.is_valid`, `HVBattery.is_valid` and `to_dict` on the asynchronous messages are defined in modules that are not part of this model. They appear as parameters: `inLut`, `lookup`, `isValid`, `toDict`.
- The inverter, battery and control-unit models built with `from_orm` are not modelled. The plants return the underlying register caches instead.
- `Plant.Plant.Update`: `holding_register_updated` is modelled by returning the reported write, not by calling an overridable method.
- Plant caches are values in a map. Aliasing between a cache object and the plant is not modelled.
- The truncated `max_holding_reg` field (givenergy_modbus/model/plant.py:41) is not modelled; the line is incomplete.
- Floating-point converters (`milli`, `centi`, `deci`), `fstr`, `hex`, and `__str__` formatting are left out. So are logging, `_gendoc` docstring generation, JSON text and pydantic serialisation.
- The deprecated one-line wrappers (`enable_charge`, `disable_charge`, `enable_discharge`, `disable_discharge`, `set_shallow_charge`) are left out. Each only forwards to a modelled setter.
- `Commands.WriteNamedRegister` builds the write request with keyword arguments. The source passes them positionally to a request class defined in a module that is not part of this model.
- `Commands.SetHelper` takes either a slot or an integer that `int()` has already produced. `int()` of other Python types is not modelled. `True` and `False` are written as 1 and 0.
- `Decimal.ParseInt` covers surrounding white space (the ASCII white space and the non-ASCII characters `str.isspace` accepts; the ASCII separators 0x1C to 0x1F are not skipped, as `int()` does not skip them), an optional sign and ASCII digits. Underscores between digits and non-ASCII decimal digits, which Python's `int` also accepts, are not modelled.
- `Commands.SetModeDynamic` builds requests by name and leaves the register lookups to `Commands.Resolve`, which does them afterwards in request order. The source looks each name up while it builds the request. So when a lookup fails and a later setter name is not a register name, the source raises the lookup's exception and the model raises AttributeError.
- `Commands.SetModeStorage`: the same deferred lookups as `Commands.SetModeDynamic`, with the same difference when two of them fail.
- `Plant.Plant.DetectBatteries` and `AsyncPlant.Plant.DetectBatteries` use the corrected count of the Findings table: on six present and valid caches they give 6, where the source gives 5. The as-written count is `Plant.DetectedCount`.
- `Registers.ApplyFixed`: `int16(True)` returns `True` itself in the source, since `True & 0x8000` is 0, and `str` then renders it as "True". The model gives `IntVal(1)`, rendered "1". This only arises when `int16` is a post-conversion after `bool`.

## Findings

| source | as written | input that shows it | evidently intended | confidence | as-written member | corrected member |
|---|---|---|---|---|---|---|
| givenergy_modbus/model/plant.py:115-121 (and givenergy_modbus_async/model/plant.py:95-104) | after `for i in range(6)` runs without `break`, `i` is 5, so `number_batteries = i` counts six valid batteries as five | six present and valid battery caches at 0x32..0x37 | the number of leading valid batteries, 6; both plants' `DetectBatteries` use this corrected count. Against this: `refresh_plant_data` defaults `max_batteries` to 5 (givenergy_modbus/client/commands.py:110) and reads battery caches only at 0x32..0x36 (commands.py:143-147, `Commands.RefreshPlantDataDefault`), so with the library's own refresh a cache at 0x37 is never filled and a cap at 5 may be intended; tests/model/test_plant.py:91 and :1142 only assert a count of 1 | low, not executed | `Plant.SixBatteriesCountedAsFive` | `Plant.LeadingValidMeaning` |
