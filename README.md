# Tegra "star" board: partition descriptor and once-only setters

This project models the self-contained logic of the LG Star (Tegra 2)
SDHCI board file `arch/arm/mach-tegra/lge/star/board-star-sdhci.c`:

- the ASCII classifiers `Isdigit`, `Isxdigit` and `CharToXDigit`;
- the home-grown `Strtoull`. It takes an optional `-`, an optional `0x`/`0X`
  prefix, and a maximal run of decimal or hexadecimal digits. It folds them
  in wrapping 64-bit arithmetic and reports the stop position through
  `endptr`. It also keeps its decimal short-cut: in base 10 with an end
  cursor, a "0x" prefix reads as the number 0 ending after the `0`;
- `tegra_get_partition_info_by_name`. It scans the `tegrapart=`
  descriptor `name:start:length:size,name:...` for the first entry that
  carries the requested name, and decodes the entry's three base-16
  fields into the three output pointers;
- the boot-time globals: `tegrapart_setup`, where the first non-empty
  option wins, and the Wi-Fi card-status callback slot
  (`star_wifi_status_register`, which returns `-EAGAIN` once it is taken,
  and `star_wifi_set_carddetect`).

Representation:
- C strings are `string` values. `CString.At` reads NUL past the end, and
  pointers into a string are indices.
- `unsigned long long` is `Word.u64`, with every arithmetic step wrapped
  explicitly. `unsigned int` is `Word.u32`.
- A NULL `endptr` is `wantEnd == false`.
- Output pointers become the values they held before the call (`prior`)
  and the values they hold after it.
- Function pointers and `void *` cookies are opaque naturals, with 0 as
  NULL.

Layout:
- `cstring.dfy`: strings, classifiers and 64-bit words.
- `strtoull.dfy`: the parser and its specification.
- `partition.dfy`: the descriptor format and what a lookup must find.
- `board.dfy`: the globals as a class, with the lookup method and the setters.

Every cursor loop of the C code is a `while` loop proved against a pure
specification:
- `Strtoull.Strtoull` equals `Strtoull.ParseUnsigned`;
- `BoardGlobals.GetPartitionInfoByName` picks the entry given by
  `PartitionTable.FirstMatch` and decodes it as `PartitionTable.DecodeEntry`.

The specifications are related to independent definitions: the exact
positional value of the digits, and a formatter that writes descriptor
entries.

The outputs are written as soon as each field is read. A lookup that
fails on a later delimiter therefore leaves the earlier outputs
overwritten. The model follows the code here, not the tidier rule of
leaving the outputs untouched on failure.

## Model

| member | source | states |
|---|---|---|
| CString.At | arch/arm/mach-tegra/lge/star/board-star-sdhci.c:279-283 | Reading a C string at an index gives the stored character inside the string. Any non-NUL character read lies inside it. |
| CString.StrLen | arch/arm/mach-tegra/lge/star/board-star-sdhci.c:323 | `strlen` is the position of the first NUL. No character before it is NUL, and the length never exceeds the text. |
| CType.Isdigit | arch/arm/mach-tegra/lge/star/board-star-sdhci.c:257-260 | The decimal classifier: '0' to '9' and nothing else. It carries no contract of its own; its agreement with the table "0123456789" is proved in ClassifiersMatchDigitTables. |
| CType.Isxdigit | arch/arm/mach-tegra/lge/star/board-star-sdhci.c:262-265 | Every decimal digit is also a hexadecimal digit. |
| CType.CharToXDigit | arch/arm/mach-tegra/lge/star/board-star-sdhci.c:267-272 | The value lies in -1..15. It is non-negative exactly for hexadecimal digits, and in 0..9 exactly for decimal digits. |
| CType.ClassifiersMatchDigitTables | arch/arm/mach-tegra/lge/star/board-star-sdhci.c:257-272 | The classifiers accept exactly the characters of the tables "0123456789", "0123456789abcdef" and "0123456789ABCDEF". The digit value is the character's index in its table. |
| Word.Wrap | arch/arm/mach-tegra/lge/star/board-star-sdhci.c:296-306 | `unsigned long long` arithmetic is congruent to the exact result modulo 2^64, and is exact when in range. |
| Word.Truncate32 | arch/arm/mach-tegra/lge/star/board-star-sdhci.c:343 | Storing into `unsigned int` keeps the value modulo 2^32. |
| Word.Complement | arch/arm/mach-tegra/lge/star/board-star-sdhci.c:314 | `~val` is the 64-bit complement: v + ~v = 2^64 - 1. |
| Word.Negate | arch/arm/mach-tegra/lge/star/board-star-sdhci.c:314 | `(~v)+1` cancels v modulo 2^64, and is 0 exactly when v is 0. |
| Word.NegateIsTwosComplement | arch/arm/mach-tegra/lge/star/board-star-sdhci.c:314 | `(~v)+1` is (2^64 - v) mod 2^64. It cancels v modulo 2^64 and undoes itself. |
| Strtoull.SignEnd | arch/arm/mach-tegra/lge/star/board-star-sdhci.c:279-282 | The cursor moves past the first character, by exactly one, exactly when that character is '-'. |
| Strtoull.HexPrefixAt | arch/arm/mach-tegra/lge/star/board-star-sdhci.c:283 | A "0x"/"0X" prefix lies inside the text. Its '0' is a digit, and its 'x' is not a hexadecimal digit, so a digit run never runs into it. |
| Strtoull.DigitsStart | arch/arm/mach-tegra/lge/star/board-star-sdhci.c:279-292 | The digits start after the optional sign and prefix, still inside the text. |
| Strtoull.RunEnd | arch/arm/mach-tegra/lge/star/board-star-sdhci.c:294-309 | The digit run ends inside the text, at or after its start. |
| Strtoull.RunEndIsMaximal | arch/arm/mach-tegra/lge/star/board-star-sdhci.c:295-309 | Every character before the run end is a digit of the radix, and the character at it is not. So the end cursor never rests on a digit. |
| Strtoull.RunEndUnique | arch/arm/mach-tegra/lge/star/board-star-sdhci.c:295-309 | Any position that ends a run of radix digits from the start is the run end. |
| Strtoull.Fold | arch/arm/mach-tegra/lge/star/board-star-sdhci.c:294-309 | The loops' wrapped accumulation over a range of digits. A range of '0' characters accumulates to 0. Its value is characterised in FoldIsMagnitudeMod. |
| Strtoull.ParseUnsigned | arch/arm/mach-tegra/lge/star/board-star-sdhci.c:274-315 | An end cursor is reported exactly when `endptr` is non-NULL. It never moves before the start or past the text. |
| Strtoull.Strtoull | arch/arm/mach-tegra/lge/star/board-star-sdhci.c:274-315 | The sign test, prefix test, early return, digit loops, end write and negation compute exactly ParseUnsigned. |
| Strtoull.ScanHex | arch/arm/mach-tegra/lge/star/board-star-sdhci.c:294-302 | The base-16 loop stops at the end of the maximal hex run, holding the wrapped fold of that run. |
| Strtoull.ScanDecimal | arch/arm/mach-tegra/lge/star/board-star-sdhci.c:303-309 | The base-10 loop stops at the end of the maximal decimal run, holding the wrapped fold of that run. |
| Strtoull.FoldStep | arch/arm/mach-tegra/lge/star/board-star-sdhci.c:296-306 | Shifting and then adding, each wrapped to 64 bits, is one wrapped fold step. |
| Strtoull.FoldIsMagnitudeMod | arch/arm/mach-tegra/lge/star/board-star-sdhci.c:294-309 | The wrapped fold equals the exact positional value of the digits modulo 2^64. |
| Strtoull.FoldStepMod | arch/arm/mach-tegra/lge/star/board-star-sdhci.c:296-306 | One wrapped step keeps the running value equal to the exact value modulo 2^64. |
| Strtoull.MagnitudeBound | arch/arm/mach-tegra/lge/star/board-star-sdhci.c:294-309 | n digits of the radix denote a number in [0, radix^n). |
| Strtoull.ShortMagnitudeFits | arch/arm/mach-tegra/lge/star/board-star-sdhci.c:294-309 | Up to 16 hexadecimal or 19 decimal digits denote a number below 2^64. |
| Strtoull.ShortRunIsExact | arch/arm/mach-tegra/lge/star/board-star-sdhci.c:294-309 | Up to 16 hexadecimal or 19 decimal digits, the loops compute the exact value with no wrap-around. |
| Strtoull.ParseHexRun | arch/arm/mach-tegra/lge/star/board-star-sdhci.c:283-314 | Base 16, or a prefix outside the short-cut, gives the maximal hex run read positionally modulo 2^64. The value is negated after '-', and the cursor is on the first non-hex character. |
| Strtoull.ParseDecimalRun | arch/arm/mach-tegra/lge/star/board-star-sdhci.c:303-314 | Any other base without a prefix gives the maximal decimal run modulo 2^64, negated after '-', with the cursor on the first non-digit. With no digits the result is 0 and the cursor stays after the sign. |
| Strtoull.ParseDecimalHexPrefix | arch/arm/mach-tegra/lge/star/board-star-sdhci.c:283-289 | In base 10 with an end cursor, "0x"/"0X" after the optional sign gives 0, with the cursor just past the '0'. |
| Strtoull.ParseNegative | arch/arm/mach-tegra/lge/star/board-star-sdhci.c:279-314 | A single leading '-', not followed by another '-', yields `(~v)+1` of what the rest parses to, with the same end cursor. |
| Strtoull.ParseExamples | arch/arm/mach-tegra/lge/star/board-star-sdhci.c:274-315 | "0x1A" in base 16 gives 26 with the end at 4. In base 10 it gives 0 with the end at 1. "-5" gives 2^64 - 5. |
| Strtoull.ParseToHex | arch/arm/mach-tegra/lge/star/board-star-sdhci.c:294-313 | Round trip: any 64-bit number written in hexadecimal reads back exactly in base 16, with the cursor right after the digits. The character after it must not be a hex digit, and, after the text "0" only, must not be 'x' or 'X'. |
| PartitionTable.IsEntryStart | arch/arm/mach-tegra/lge/star/board-star-sdhci.c:330-355 | Entries start at 0 and after each ','. Such a position is never past the end of the text. |
| PartitionTable.Clear | arch/arm/mach-tegra/lge/star/board-star-sdhci.c:330-352 | A character the scan passes over is not NUL, and not a space where an entry starts. |
| PartitionTable.ScannedEntry | arch/arm/mach-tegra/lge/star/board-star-sdhci.c:330-355 | An entry the scan reaches satisfies the outer loop's guard at its first character: neither NUL nor space. |
| PartitionTable.NameAt | arch/arm/mach-tegra/lge/star/board-star-sdhci.c:332 | `strncmp` over the name's length matches, and the ':' after it lies inside the text. |
| PartitionTable.FirstMatch | arch/arm/mach-tegra/lge/star/board-star-sdhci.c:330-356 | The first entry the scan reaches that carries the name. When there is one, `name:` lies inside the descriptor. |
| PartitionTable.FirstMatchUnique | arch/arm/mach-tegra/lge/star/board-star-sdhci.c:330-332 | The entry the lookup stops at is unique, and `name:` fits inside the descriptor. |
| PartitionTable.DecodeEntry | arch/arm/mach-tegra/lge/star/board-star-sdhci.c:334-346 | The return code is 0 or -1, and the start output is always the first base-16 field. |
| PartitionTable.DecodeEntryOverwrites | arch/arm/mach-tegra/lge/star/board-star-sdhci.c:334-346 | The return code never depends on the outputs' old values. On success all three outputs are overwritten. A sector size that differs from its old value was written by the lookup. |
| PartitionTable.DecodeEntryCases | arch/arm/mach-tegra/lge/star/board-star-sdhci.c:334-346 | Case by case over the delimiter checks. A missing first ':' gives -1 with only start written. A missing second ':' gives -1 with start and length written. Once both pass, all three outputs are written, and the result is 0 exactly when ',', a space or NUL follows the third field. |
| PartitionTable.HexField | arch/arm/mach-tegra/lge/star/board-star-sdhci.c:335-343 | A formatted field followed by ':', ',', ' ' or NUL reads back, with the end cursor on that delimiter. |
| PartitionTable.EntryFieldsParse | arch/arm/mach-tegra/lge/star/board-star-sdhci.c:334-344 | In a formatted entry, the three fields read back in turn, each ending on its delimiter. |
| PartitionTable.DecodeWellDelimited | arch/arm/mach-tegra/lge/star/board-star-sdhci.c:334-346 | Three fields with ':', ':' and ','/space/NUL after them decode to success. Start and length are the values read, and size is the third value truncated to 32 bits. |
| PartitionTable.FormatEntryLayout | arch/arm/mach-tegra/lge/star/board-star-sdhci.c:330-346 | A formatted entry followed by nothing, ',' or a space has the field layout the lookup reads. |
| PartitionTable.EntryRoundTrip | arch/arm/mach-tegra/lge/star/board-star-sdhci.c:330-346 | An entry in that layout at the head of the descriptor is the first match for its name, and decodes to its own numbers whatever the outputs held. |
| PartitionTable.FormattedEntryRoundTrip | arch/arm/mach-tegra/lge/star/board-star-sdhci.c:330-346 | Formatting an entry and looking its name up gives back the formatted start, length and size with return code 0. |
| PartitionTable.SecondEntryFound | arch/arm/mach-tegra/lge/star/board-star-sdhci.c:330-356 | In "a:1:2:3,b:4:5:6" the lookup for "b" skips the first entry and stops at the second one. |
| PartitionTable.SecondEntryDecodes | arch/arm/mach-tegra/lge/star/board-star-sdhci.c:334-346 | That second entry decodes to 4, 5, 6, with return code 0. |
| PartitionTable.MissingFieldExample | arch/arm/mach-tegra/lge/star/board-star-sdhci.c:339-345 | "a:1:2" fails for "a" with -1, but start and length are already written. |
| PartitionTable.ScanStops | arch/arm/mach-tegra/lge/star/board-star-sdhci.c:330-357 | Once the scan stops at NUL, at the end of the text, or at a space that starts an entry, with no earlier match, no entry matches at all. |
| StarBoard.SetupStep | arch/arm/mach-tegra/lge/star/board-star-sdhci.c:38-43 | A stored descriptor is never replaced. With none stored, a non-NULL, non-empty option is stored. A NULL or empty option changes nothing. |
| StarBoard.SetupAll | arch/arm/mach-tegra/lge/star/board-star-sdhci.c:37-43 | After a sequence of `tegrapart=` options, the descriptor is still NULL exactly when it was NULL and every option was NULL or empty. |
| StarBoard.FirstNonEmpty | arch/arm/mach-tegra/lge/star/board-star-sdhci.c:40-41 | The result is the first non-NULL, non-empty option of the calls: every call before it is NULL or empty. None means every call was NULL or empty. |
| StarBoard.SetupFirstWriterWins | arch/arm/mach-tegra/lge/star/board-star-sdhci.c:37-43 | After any sequence of `tegrapart=` options, the descriptor is the one stored before, if any. Otherwise it is the first non-empty option. |
| StarBoard.RegisterStep | arch/arm/mach-tegra/lge/star/board-star-sdhci.c:51-60 | Registration succeeds (0) exactly when no callback is stored, and then stores the callback and cookie. Otherwise it returns -EAGAIN and leaves the slot unchanged. |
| StarBoard.RegisterAll | arch/arm/mach-tegra/lge/star/board-star-sdhci.c:51-60 | After a sequence of registrations, the slot is still empty exactly when it was empty and every registration passed a NULL callback. |
| StarBoard.RegisteredStaysRegistered | arch/arm/mach-tegra/lge/star/board-star-sdhci.c:55-56 | Once a callback holds the slot, no sequence of later registrations changes it. |
| StarBoard.FirstRegistrationWins | arch/arm/mach-tegra/lge/star/board-star-sdhci.c:51-60 | From an empty slot, the first registration of a non-NULL callback is what the slot holds after any sequence of registrations. |
| StarBoard.CardDetect | arch/arm/mach-tegra/lge/star/board-star-sdhci.c:62-70 | The registered callback is called, with the card state and the stored cookie, exactly when one is registered. |
| StarBoard.NotifyAfterRegister | arch/arm/mach-tegra/lge/star/board-star-sdhci.c:51-70 | After registering a non-NULL callback, card-detect notifies the new callback if registration succeeded, and the earlier one if it was refused. |
| StarBoard.ReadFields | arch/arm/mach-tegra/lge/star/board-star-sdhci.c:334-346 | The three Strtoull calls, with their delimiter checks and output writes, compute exactly DecodeEntry. |
| StarBoard.BoardGlobals.constructor | arch/arm/mach-tegra/lge/star/board-star-sdhci.c:37-48 | The globals start with no descriptor and an empty callback slot. |
| StarBoard.BoardGlobals.TegrapartSetup | arch/arm/mach-tegra/lge/star/board-star-sdhci.c:38-43 | Returns 0. The descriptor becomes SetupStep of the old one, and the callback slot is untouched. |
| StarBoard.BoardGlobals.WifiStatusRegister | arch/arm/mach-tegra/lge/star/board-star-sdhci.c:51-60 | The return code and the new slot are RegisterStep of the old slot, and the descriptor is untouched. |
| StarBoard.BoardGlobals.WifiSetCardDetect | arch/arm/mach-tegra/lge/star/board-star-sdhci.c:62-70 | Returns 0, and performs the CardDetect action for the current slot. |
| StarBoard.BoardGlobals.GetPartitionInfoByName | arch/arm/mach-tegra/lge/star/board-star-sdhci.c:317-358 | It returns -1 with the outputs untouched in two cases: no descriptor, or no scanned entry that starts with `name:`. Otherwise it decodes the first such entry exactly as DecodeEntry does. |

## Left out

- Logging (`pr_debug`, `pr_warning`, `printk`, and the `DEBUG` print inside the hex loop) has no effect on results.
- `star_wifi_power`, `star_wifi_reset`, `star_wifi_init` and `star_wifi_prepower` are GPIO, clock and delay calls into the kernel, with no logic of their own.
- The static `resource` and `platform_data` tables, the `CONFIG_*` conditionals and the `__setup` registration are data and boot plumbing, not behaviour.
- `star_sdhci_init` (platform-device registration order, and the MBR start-offset product under a configuration option) is kernel device-model wiring.
- StarBoard.BoardGlobals.WifiSetCardDetect: the foreign callback is not called. The call it would make is returned as a `CardDetectAction`.
- StarBoard.BoardGlobals.GetPartitionInfoByName: output pointers that alias each other, or alias the descriptor, are not modelled. The outputs are values going in and coming out.
- A NULL `PartName`, or a NULL string passed to `Strtoull`, is undefined behaviour in C and is not modelled. Strings are always present.
- Callbacks and cookies are opaque handles, with 0 for NULL. Calls from several threads are not modelled; the source has no locking.
- Characters are Dafny `char`s. The sign extension of bytes above 127 into the `int` arguments of the classifiers plays no part, since every comparison is against ASCII.
