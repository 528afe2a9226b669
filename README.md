# Eurocom MX5-R2 keyboard LEDs — a Dafny model

This project models the core of the `mx5kbleds` Linux kernel module. The module drives the backlight of the
Eurocom MX5-R2 keyboard through one firmware entry point (WMI method `SET_KB_LED`, 0x67). The keyboard has
three colour zones (left, center, right), one brightness level and eight lighting modes: random, custom,
breathe, cycle, wave, dance, tempo and flash. The module keeps the lighting state in globals. It exposes six
sysfs attributes: `left`, `center`, `right`, `brightness`, `mode` and `modedesc`. Each write to one of them
becomes a sequence of 32-bit opcodes sent to the firmware.

The project has five modules:

- `Optional` (optional.dfy): the Option datatype. It carries parse results and lookups that can fail.
- `Opcodes` (opcodes.dfy): the command encoder.
  - The `Mode` enumeration and its values 0..7.
  - The colour opcode `0xF0000000 | region<<24 | blue<<16 | red<<8 | green`.
  - The brightness opcode `0xF4000000 | b`.
  - The mode-reset opcode `0x10000000` and the per-mode table `Cmds`.
  - The 24-bit packing `red<<16 | green<<8 | blue` of a stored colour.
  - `Decode`, a reader of the wire format. It is not part of the module. It serves as the encoder's inverse:
    the emitted opcodes of the four kinds can never be confused with one another.
- `ModeNames` (mode_names.dfy): the name table and the `modedesc` lookup. `strncmp` is modelled on C strings,
  so a comparison stops at a shared NUL. The `for` loop selects the first name that compares equal on
  `size - 1` bytes.
- `Lighting` (lighting.dfy): the lighting state as a value (`State`) and, for each operation, its `Effect`:
  the new state and the opcodes sent, in order. This module also holds the properties that span several
  calls.
- `KeyLeds` (keyleds.dfy): the class `Keyboard`. Its fields are the module's globals `left`, `center`,
  `right`, `brightness` and `mode`, plus `sent`, the list of opcodes handed to the firmware. Each function
  of the module that changes the globals is a method here. Each method is proved to leave exactly the state
  and the `sent` list that the matching `Lighting` function describes.

Decisions, all following the code:

- Every `(unsigned char)` conversion is explicit (`Opcodes.Low8`): a value is reduced modulo 256.
  - A brightness write of 300 stores 44. The `clamp_t(…, 0, 255)` at module/eurocom-mx5r2-keyleds.c:294
    never changes an `unsigned char`, because the cast at :314 has already cut the number to its low byte.
    The documented behaviour is that an out-of-range brightness is clamped to 0..255. The model follows
    the code, which truncates.
  - A `mode` write of 257 selects Custom. A write of 9 is ignored.
- Selecting Custom does not assign the mode itself. It re-sends the three stored colours through
  `set_region_color`, which makes the mode Custom, and then re-sends the stored brightness.
- A write to `left`, `center` or `right` in a non-Custom mode first re-sends the whole stored palette.
- The colours compiled into the globals are blue for every zone. The module's startup code then sets red,
  green and blue zones at brightness 255. Both are modelled: `Keyboard.constructor` and
  `ApplyStartupDefaults`.

## Model

| member | source | states |
|---|---|---|
| Opcodes.Index | module/eurocom-mx5r2-keyleds.c:101-110 | a mode's enumeration value is below 8, and it is 1 exactly for Custom |
| Opcodes.ModeAt | module/eurocom-mx5r2-keyleds.c:338-340 | a byte names a mode exactly when it is below 8, and then it names the mode with that enumeration value |
| Opcodes.ModeAtIndex | module/eurocom-mx5r2-keyleds.c:101-110 | enumeration value and mode convert back and forth without loss |
| Opcodes.Low8 | module/eurocom-mx5r2-keyleds.c:234 | the `unsigned char` conversion is the value reduced modulo 256, i.e. exactly its low 8 bits |
| Opcodes.Pack | module/eurocom-mx5r2-keyleds.c:193-199 | a stored colour fits in 24 bits, and unpacking it with `>>16`, `(>>8)&0xFF` and `&0xFF` gives back red, green and blue |
| Opcodes.Unpack | module/eurocom-mx5r2-keyleds.c:215-222 | the three channels read out of a stored colour are its bytes 2, 1 and 0 (the `unsigned char` values of `>> 16`, `(>> 8) & 0xFF` and `& 0xFF`); for a 24-bit colour the unmasked `>> 16` that is printed is already the red byte |
| Opcodes.PackUnpack | module/eurocom-mx5r2-keyleds.c:215-217 | re-packing the three channels read out of a 24-bit colour gives the same stored value |
| Opcodes.ColorOpcode | module/eurocom-mx5r2-keyleds.c:178-188 | the top byte of a colour opcode is `0xF0 | region`; bytes 2, 1 and 0 decode to blue, red and green |
| Opcodes.BrightnessOpcode | module/eurocom-mx5r2-keyleds.c:300 | the brightness opcode is `0xF40000` followed by the brightness byte |
| Opcodes.ModeCommand | module/eurocom-mx5r2-keyleds.c:327-336 | a mode's table entry is zero exactly for Custom, and no entry is the reset opcode |
| Opcodes.FindCommand | module/eurocom-mx5r2-keyleds.c:327-336 | a table search returns only non-Custom modes whose entry is the searched opcode |
| Opcodes.Decode | module/eurocom-mx5r2-keyleds.c:178-188 | whatever decodes is a well-formed command whose encoding is the decoded opcode |
| Opcodes.FindCommandOf | module/eurocom-mx5r2-keyleds.c:327-336 | the table entries of the seven non-Custom modes are distinct, so each entry leads back to its mode |
| Opcodes.DecodeEncode | module/eurocom-mx5r2-keyleds.c:176-358 | every colour (region below 3), brightness, reset and non-Custom mode opcode decodes to the command it was built from |
| ModeNames.StrnEq | module/eurocom-mx5r2-keyleds.c:395 | `strncmp(s, t, n) == 0` holds exactly when the two strings agree at every one of the first n positions that come before the terminator of `s`, so the comparison stops successfully at a shared NUL |
| ModeNames.PrefixRule | module/eurocom-mx5r2-keyleds.c:395 | when the compared bytes hold no NUL, `strncmp(name, buf, n) == 0` holds exactly when those n bytes are a prefix of the name (both directions) |
| ModeNames.FirstMatchFrom | module/eurocom-mx5r2-keyleds.c:394-399 | the loop selects a name that compares equal, and no earlier name compares equal; no selection means no name does |
| ModeNames.FirstMatchIs | module/eurocom-mx5r2-keyleds.c:394-399 | the lowest matching index is the one selected |
| ModeNames.FirstPrefixFrom | module/eurocom-mx5r2-keyleds.c:112-121 | reference search: the result is a name that starts with the given bytes and no earlier name does; no result means no name does |
| ModeNames.LookupIsPrefixSearch | module/eurocom-mx5r2-keyleds.c:394-399 | for NUL-free input the `strncmp` loop equals the search for the first name that starts with the input |
| ModeNames.ModeDesc | module/eurocom-mx5r2-keyleds.c:377-384 | the description is empty exactly for an out-of-range value, and otherwise is the name followed by a newline |
| ModeNames.IndexInTable | module/eurocom-mx5r2-keyleds.c:101-121 | every mode's enumeration value is a position in the name table |
| ModeNames.TableIndexIsMode | module/eurocom-mx5r2-keyleds.c:394-396 | every position the lookup can select, cast to `unsigned char`, is the enumeration value of a mode |
| ModeNames.NameFacts | module/eurocom-mx5r2-keyleds.c:112-121 | every name is non-empty and holds no NUL |
| ModeNames.NameSelects | module/eurocom-mx5r2-keyleds.c:394-399 | bytes whose compared part is exactly a name select that name's position: no name starts with a later one |
| ModeNames.DescSelectsMode | module/eurocom-mx5r2-keyleds.c:112-121 | no name is a prefix of an earlier one, so each mode's description written back selects that mode |
| ModeNames.SelectsCycle | module/eurocom-mx5r2-keyleds.c:386-402 | `"cycle\n"` selects mode 3 |
| ModeNames.ShortPrefixSelectsFirst | module/eurocom-mx5r2-keyleds.c:386-402 | `"c\n"` selects Custom (1), the first name starting with c |
| ModeNames.LongerInputSelectsNothing | module/eurocom-mx5r2-keyleds.c:386-402 | `"cycles\n"` selects no mode |
| Lighting.RegionIndex | module/eurocom-mx5r2-keyleds.c:92-97 | the three regions are numbered below 3 |
| Lighting.RegionAt | module/eurocom-mx5r2-keyleds.c:180-182 | a region number is valid exactly when it is below 3 |
| Lighting.RegionAtIndex | module/eurocom-mx5r2-keyleds.c:92-97 | region numbers and regions convert back and forth without loss |
| Lighting.WithPacked | module/eurocom-mx5r2-keyleds.c:191-204 | storing one region's colour leaves the other two regions, brightness and mode as they were |
| Lighting.Clamp | module/eurocom-mx5r2-keyleds.c:294 | `clamp_t`: an in-range value is returned unchanged, a value below the range gives the lower bound and one above gives the upper bound |
| Lighting.SetRegionColor | module/eurocom-mx5r2-keyleds.c:176-211 | an invalid region changes nothing and sends nothing; otherwise the region reads back the given channels, the other regions and brightness are unchanged, the mode is Custom, and exactly the one colour opcode is sent |
| Lighting.ResetCustomColors | module/eurocom-mx5r2-keyleds.c:214-218 | the palette and brightness are unchanged, the mode becomes Custom, and the three stored colours are sent left, center, right |
| Lighting.SetKeyboardBrightness | module/eurocom-mx5r2-keyleds.c:292-301 | the brightness stored and sent is exactly the argument; colours and mode are unchanged |
| Lighting.SetKeyboardMode | module/eurocom-mx5r2-keyleds.c:325-359 | a value of 8 or more changes nothing and sends nothing; colours and brightness never change; a non-Custom mode sends the reset and then its table entry; Custom sends the reset, the stored palette and the stored brightness |
| Lighting.Startup | module/eurocom-mx5r2-keyleds.c:478-484 | from any state, startup leaves red, green and blue zones at brightness 255 in Custom mode and sends exactly those four opcodes |
| Lighting.WriteRegionColor | module/eurocom-mx5r2-keyleds.c:224-238 | a malformed write changes nothing; otherwise the region reads back the low bytes of the three numbers and the mode is Custom; from a valid state the new state is the old one with only that region's colour and the mode replaced, and the palette is re-sent before the new colour exactly when the mode was not Custom |
| Lighting.WriteBrightness | module/eurocom-mx5r2-keyleds.c:307-317 | a malformed write changes nothing; otherwise the low byte of the number (truncated, not clamped) is stored and sent |
| Lighting.WriteModeInteger | module/eurocom-mx5r2-keyleds.c:365-375 | a malformed write, or one whose low byte is 8 or more, changes nothing; otherwise that byte selects the mode, and the reset opcode is sent followed by the mode's table entry or, for Custom, the stored palette and brightness |
| Lighting.WriteModeDesc | module/eurocom-mx5r2-keyleds.c:386-402 | fewer than two bytes are refused with result 0; otherwise the whole write is consumed, no matching name changes nothing, and otherwise only the mode changes, to the one whose enumeration value is the first name that compares equal, and the reset opcode is sent followed by the mode's table entry or, for Custom, the stored palette and brightness |
| Lighting.ReadRegionColor | module/eurocom-mx5r2-keyleds.c:220-222 | for a 24-bit stored colour the three printed numbers are its red, green and blue channels |
| Lighting.ReadModeInteger | module/eurocom-mx5r2-keyleds.c:361-363 | the printed mode value is below 8 and names the stored mode |
| Lighting.ReadModeDesc | module/eurocom-mx5r2-keyleds.c:377-384 | the description is never empty, the out-of-range branch is unreachable, and writing the description back selects the stored mode |
| Lighting.ColorReadBack | module/eurocom-mx5r2-keyleds.c:220-238 | writing three numbers to a region and reading it back gives their low bytes |
| Lighting.CustomModeIdempotent | module/eurocom-mx5r2-keyleds.c:343-351 | selecting Custom a second time leaves the same state and sends the same opcodes as the first |
| Lighting.ExcursionRestoresPalette | module/eurocom-mx5r2-keyleds.c:343-358 | after any mode and then Custom, the state is the original with mode Custom, and the palette and brightness from before the excursion are what gets sent |
| Lighting.ModeIntegerRoundTrip | module/eurocom-mx5r2-keyleds.c:361-375 | writing the read `mode` value back changes no stored value |
| Lighting.ModeDescRoundTrip | module/eurocom-mx5r2-keyleds.c:377-402 | writing the read `modedesc` text back changes no stored value |
| Lighting.ModeDescByPrefix | module/eurocom-mx5r2-keyleds.c:386-402 | for NUL-free input, only the mode changes, and it becomes the one whose enumeration value is the first name starting with the written bytes less the last one; if no name starts with them, nothing changes |
| Lighting.PaletteDecodable | module/eurocom-mx5r2-keyleds.c:214-218 | the three opcodes that re-send the stored palette are well formed |
| Lighting.ModeTrafficDecodable | module/eurocom-mx5r2-keyleds.c:343-358 | every opcode a mode change sends is well formed; Custom's zero table entry is never sent |
| Lighting.ColorWriteDecodable | module/eurocom-mx5r2-keyleds.c:224-278 | from a valid state, a write to `left`, `center` or `right` sends only well-formed opcodes |
| Lighting.ModeDescDecodable | module/eurocom-mx5r2-keyleds.c:386-402 | from a valid state, a `modedesc` write sends only well-formed opcodes |
| Lighting.ApplyDecodable | module/eurocom-mx5r2-keyleds.c:224-402 | from a valid state, any single attribute write sends only well-formed opcodes |
| Lighting.RunInvariant | module/eurocom-mx5r2-keyleds.c:224-402 | after any sequence of attribute writes, every stored colour is still 24-bit and every opcode sent is well formed |
| KeyLeds.Keyboard.constructor | module/eurocom-mx5r2-keyleds.c:168-172 | the compiled-in globals: every zone blue (0x0000FF), brightness 255 (:290), mode Custom (:110), nothing sent |
| KeyLeds.Keyboard.Send | module/eurocom-mx5r2-keyleds.c:128-163 | a firmware call appends its opcode to the sent list and changes nothing else |
| KeyLeds.Keyboard.SetRegionColor | module/eurocom-mx5r2-keyleds.c:176-211 | the globals and sent list become those of `Lighting.SetRegionColor` |
| KeyLeds.Keyboard.ResetCustomColors | module/eurocom-mx5r2-keyleds.c:214-218 | the three chained calls leave the state and opcodes of `Lighting.ResetCustomColors` |
| KeyLeds.Keyboard.SetKeyboardBrightness | module/eurocom-mx5r2-keyleds.c:292-301 | the globals and sent list become those of `Lighting.SetKeyboardBrightness` |
| KeyLeds.Keyboard.SetKeyboardMode | module/eurocom-mx5r2-keyleds.c:325-359 | the globals and sent list become those of `Lighting.SetKeyboardMode` |
| KeyLeds.Keyboard.ApplyStartupDefaults | module/eurocom-mx5r2-keyleds.c:478-484 | the startup calls leave the state and opcodes of `Lighting.Startup` |
| KeyLeds.Keyboard.WriteRegionColor | module/eurocom-mx5r2-keyleds.c:224-278 | the three region handlers leave the state and opcodes of `Lighting.WriteRegionColor` |
| KeyLeds.Keyboard.WriteBrightness | module/eurocom-mx5r2-keyleds.c:307-317 | the handler leaves the state and opcodes of `Lighting.WriteBrightness` |
| KeyLeds.Keyboard.WriteModeInteger | module/eurocom-mx5r2-keyleds.c:365-375 | the handler leaves the state and opcodes of `Lighting.WriteModeInteger` |
| KeyLeds.Keyboard.WriteModeDesc | module/eurocom-mx5r2-keyleds.c:386-402 | the `for` loop with its early `break` leaves the state, opcodes and result of `Lighting.WriteModeDesc` |

## Left out

- The ACPI/WMI call inside `wmi_evaluate_wmbb_method` (module/eurocom-mx5r2-keyleds.c:128-163) is a firmware call. It is modelled only as appending the opcode to `sent`. The `-EIO` result and the returned integer are dropped because every caller passes `NULL` for the return value and ignores the status.
- `sscanf` and `sprintf` are not modelled. A write handler receives its parse result: `None` when `sscanf` did not fill every field, otherwise the 32-bit `unsigned int` values it stored. The read side returns the printed numbers or name, not decimal text.
- `get_brightness` prints the `brightness` field as it is. It has no member of its own.
- The handlers of `left`, `center`, `right`, `brightness` and `mode` always return `size`. That return value is not modelled. The `modedesc` write's result is modelled, because it can be 0.
- Module init and exit are not modelled beyond the startup colours and brightness (module/eurocom-mx5r2-keyleds.c:413-506). This covers the GUID probe, platform driver and device registration, and sysfs attribute creation and removal.
- Logging (`EUROCOM_INFO`, `EUROCOM_ERROR`, `EUROCOM_DEBUG`) is not modelled. It has no effect on state or opcodes.
- Concurrency is not modelled. The globals are unsynchronised; the model is sequential and does not model interleaved attribute accesses.
- KeyLeds.Keyboard.SetRegionColor: builds the colour opcode with one call to `ColorOpcode` instead of four successive `|=` steps. The value is the same.
- The out-of-range branch of `get_mode_desc` is modelled on a raw enumeration value (`ModeNames.ModeDesc`). The class stores a `Mode`, so there it cannot be reached. `Lighting.ReadModeDesc` states that.
- A `modedesc` write whose compared bytes contain a NUL follows `strncmp` (`ModeNames.StrnEq`). The prefix reading in `ModeDescByPrefix` is stated only for NUL-free input.
- The `modedesc` buffer of C `char`s and the name table are modelled as `seq<char>`, not bytes. Only equality and the NUL test are used on them, and the byte-to-char mapping keeps both.
