# Measurement Computing Linux drivers: DIO24H state, Bluetooth helpers, DIO96H version dispatch

This project models, in Dafny, three pieces of sequential logic from the
Linux drivers shipped with the Measurement Computing data-acquisition boards,
and proves properties of them.

- `dio24h.dfy` (module `Dio24H`): the PCI-DIO24H digital-I/O driver. The
  board has one Intel 8255A with ports A, B and C. The driver's global arrays
  `BoardData` and `Chan` and the counter `NumBoards` become the fields of the
  class `Driver`. Its methods are board attach and detach, `open`, `close`,
  `read`, `write` and `ioctl`. They return the driver's error codes
  (`-EBUSY`, `-ENODEV`, `-EINVAL`, `-1`). Each `outb` to an 8255 port is
  appended to a log of (address, byte) pairs. `DIO_SET_DIRECTION` rewrites
  single bits of the shadow control byte `dio24H_reg`. The pure function
  `DirectionRule` specifies that rewrite, and the methods are proved against
  it. The class invariant `Valid()` states that every attached board's
  control byte stays an 8255 mode-0 control word, with the mode-set flag
  (bit 7) on.
- `bluetooth.dfy` (module `Bluetooth`): the helpers of the Bluetooth
  transport. It covers the 8-bit additive checksum `calcChecksum` (a loop,
  proved against a recursive sum), the millisecond timeout split and the
  return-code mapping of `receiveMessage`, and the rule `discoverDevice` uses
  to pick a device address out of the `bt-device --list` listing. That rule
  is modelled with `fgets` chunking, `strncmp`, `strtok` and `strncpy`
  written out over character sequences.
- `dio96h.dfy` (module `Dio96H`): the `VERSION_CODE` packing macro and the
  chain of `#if` blocks in `dio96H.c`. For each kernel version, the chain
  includes one kernel-specific implementation file, stops the build with
  `#error`, or does nothing.
- `options.dfy` (module `Options`): the `Option` type.

The PCI-DAS1602/16 analog driver (scan engine, pacer divisor search, FIFO
draining, calibration) is not modelled.

## Model

| member | source | states |
|---|---|---|
| Dio24H.DecodePortC | vendor/src/Linux_Drivers/PCI/pci-dio24H/dio24H_2_4.c:461-482 | a port-C direction argument is accepted exactly when it is one of the six PORT_* values 0..5 |
| Dio24H.SameOutsideBits | vendor/src/Linux_Drivers/PCI/pci-dio24H/dio24H_2_4.c:437-478 | two control bytes agree outside a mask exactly when every bit the mask leaves clear is the same in both; this is how the PortCRule, DirectionRule and WithBit contracts say "every other bit unchanged" |
| Dio24H.PortCRule | vendor/src/Linux_Drivers/PCI/pci-dio24H/dio24H_2_4.c:461-478 | a port-C request changes only bits 0 and 3: PORT_INPUT sets both, PORT_OUTPUT clears both, LOW_* sets or clears bit 0 only, HIGH_* sets or clears bit 3 only |
| Dio24H.DirectionRule | vendor/src/Linux_Drivers/PCI/pci-dio24H/dio24H_2_4.c:437-496 | refused exactly for a port beyond C or an unknown port-C argument; port A sets bit 4 to bit 0 of arg and port B sets bit 1 to it, every other bit unchanged |
| Dio24H.DirectionRuleTouchesOnlyDirectionBits | vendor/src/Linux_Drivers/PCI/pci-dio24H/dio24H_2_4.c:437-484 | an accepted direction request changes no bit outside {0, 1, 3, 4} |
| Dio24H.DirectionsOnlyTouchDirectionBits | vendor/src/Linux_Drivers/PCI/pci-dio24H/dio24H_2_4.c:437-484 | after any sequence of direction ioctls, accepted or refused, only bits 0, 1, 3 and 4 can differ from the starting byte |
| Dio24H.DirectionsKeepModeZero | vendor/src/Linux_Drivers/PCI/pci-dio24H/dio24H_2_4.c:206-484 | starting from a mode-0 control word such as 0x80, every sequence of direction ioctls keeps bit 7 set and the mode bits clear |
| Dio24H.InitWordIsModeZero | vendor/src/Linux_Drivers/PCI/pci-dio24H/dio24H_2_4.c:206 | 0x80 is a mode-0 control word with every port an output |
| Dio24H.ModeZeroWordBits | vendor/src/Linux_Drivers/PCI/pci-dio24H/dio24H_2_4.c:206 | a control byte is a mode-0 word exactly when bit 7 (mode set) is on and the mode bits 6, 5 and 2 are off |
| Dio24H.PortAddress | vendor/src/Linux_Drivers/PCI/pci-dio24H/dio24H_2_4.c:210-212 | (definition) the address of port A, B or C of a board, at offset 0, 1 or 2 from base2 |
| Dio24H.ControlAddress | vendor/src/Linux_Drivers/PCI/pci-dio24H/dio24H_2_4.c:442 | (definition) the address of the 8255 control register, at offset 3 from base2 |
| Dio24H.ClearThenOr | vendor/src/Linux_Drivers/PCI/pci-dio24H/dio24H_2_4.c:439-452 | clearing bit 4 (or bit 1) and or-ing in `arg & 1` shifted there sets that bit to `arg & 1` |
| Dio24H.SetPortCBits | vendor/src/Linux_Drivers/PCI/pci-dio24H/dio24H_2_4.c:461-483 | the port-C switch fails exactly on an unknown argument and otherwise yields the byte PortCRule specifies |
| Dio24H.SetDirectionBits | vendor/src/Linux_Drivers/PCI/pci-dio24H/dio24H_2_4.c:437-484 | the masking code for ports A, B and C yields exactly the byte DirectionRule specifies, and fails exactly when it refuses |
| Dio24H.ApplyDirections | vendor/src/Linux_Drivers/PCI/pci-dio24H/dio24H_2_4.c:437-484 | (definition, no contract of its own) the shadow byte after a sequence of DIO_SET_DIRECTION ioctls, each applied with DirectionRule and a refused one leaving the byte as it was; its properties are DirectionsOnlyTouchDirectionBits and DirectionsKeepModeZero |
| Dio24H.Driver.constructor | vendor/src/Linux_Drivers/PCI/pci-dio24H/dio24H_2_4.c:92-96 | static storage starts zeroed with no board attached |
| Dio24H.Driver.Valid | vendor/src/Linux_Drivers/PCI/pci-dio24H/dio24H_2_4.c:206-218 | (class invariant) the arrays have MAX_BOARDS rows and DIO_PORTS columns, 0 <= NumBoards <= MAX_BOARDS, and every attached board's shadow byte is a mode-0 control word and its three channels hold the addresses of ports A, B and C in that order; the constructor establishes it and every method keeps it |
| Dio24H.Driver.InitOne | vendor/src/Linux_Drivers/PCI/pci-dio24H/dio24H_2_4.c:164-227 | attach fails with -ENODEV and leaves everything alone once NumBoards >= MAX_BOARDS; a failed IRQ request or PCI enable returns -ENODEV after storing the base addresses and IRQ; success sets the shadow byte to 0x80, gives ports A, B, C their addresses in order, marks them closed with mode 0, writes 0 to each, and increments NumBoards by one |
| Dio24H.Driver.ResetChannels | vendor/src/Linux_Drivers/PCI/pci-dio24H/dio24H_2_4.c:210-218 | the board's three channels get the port addresses, are marked closed with mode 0, and three zero bytes are written in port order; no other board changes |
| Dio24H.Driver.RemoveOne | vendor/src/Linux_Drivers/PCI/pci-dio24H/dio24H_2_4.c:247-255 | detach decrements NumBoards and changes nothing else in the model |
| Dio24H.Driver.Open | vendor/src/Linux_Drivers/PCI/pci-dio24H/dio24H_2_4.c:263-292 | opening an open port returns -EBUSY and changes nothing; otherwise it returns 0, sets that port's open flag and file flags, bumps the use count, and leaves every other channel alone |
| Dio24H.Driver.Close | vendor/src/Linux_Drivers/PCI/pci-dio24H/dio24H_2_4.c:300-318 | close always returns 0, clears that port's open flag and drops the use count; no other channel changes |
| Dio24H.Driver.Read | vendor/src/Linux_Drivers/PCI/pci-dio24H/dio24H_2_4.c:327-359 | -1 for a channel beyond port C; otherwise 1 and the byte read at that channel's port address |
| Dio24H.Driver.Write | vendor/src/Linux_Drivers/PCI/pci-dio24H/dio24H_2_4.c:367-394 | -1 and no change for a channel beyond port C; otherwise 1, the byte stored in the channel's value, and one write of it to the port |
| Dio24H.Driver.IoctlRejected | vendor/src/Linux_Drivers/PCI/pci-dio24H/dio24H_2_4.c:424-521 | (definition) the conditions under which dio24H_ioctl returns -EINVAL: wrong magic, ordinal above IOCTL_MAXNR, channel beyond port C, an unknown command, or a DIO_SET_DIRECTION whose port-C argument is not a PORT_* value; Ioctl's contract is stated in its terms |
| Dio24H.Driver.Ioctl | vendor/src/Linux_Drivers/PCI/pci-dio24H/dio24H_2_4.c:407-525 | -EINVAL, with no state change and nothing written, exactly for a wrong magic, an ordinal above IOCTL_MAXNR, a channel beyond port C, an unknown command, or a refused direction; a successful DIO_SET_DIRECTION stores DirectionRule's byte as the board's shadow and writes it to the control register |
| Dio24H.ExclusiveOpen | vendor/src/Linux_Drivers/PCI/pci-dio24H/dio24H_2_4.c:280-317 | open, open, close, open of a closed port returns 0, -EBUSY, 0 |
| Bluetooth.Checksum | vendor/src/Linux_Drivers/Bluetooth/bluetooth.c:81-90 | the checksum of no bytes is 0 |
| Bluetooth.Sum | vendor/src/Linux_Drivers/Bluetooth/bluetooth.c:86-88 | the arithmetic sum of n bytes is at most 255 n (the reference the wrapping accumulator is proved against) |
| Bluetooth.CalcChecksum | vendor/src/Linux_Drivers/Bluetooth/bluetooth.c:81-90 | the loop's wrapping unsigned-char accumulator equals the sum of buffer[0..length) modulo 256, and 0 for length <= 0 |
| Bluetooth.ChecksumAppend | vendor/src/Linux_Drivers/Bluetooth/bluetooth.c:86-88 | extending the range by one byte adds that byte modulo 256 |
| Bluetooth.ChecksumConcat | vendor/src/Linux_Drivers/Bluetooth/bluetooth.c:86-88 | the checksum of two concatenated ranges is the sum of their checksums modulo 256 |
| Bluetooth.SumConcat | vendor/src/Linux_Drivers/Bluetooth/bluetooth.c:86-88 | the sum over two concatenated ranges is the sum of their sums |
| Bluetooth.SplitTimeout | vendor/src/Linux_Drivers/Bluetooth/bluetooth.c:64-65 | the microsecond part is below 1 000 000 and a multiple of 1000, and seconds * 1000 + microseconds / 1000 gives back the millisecond timeout |
| Bluetooth.SplitTimeoutUnique | vendor/src/Linux_Drivers/Bluetooth/bluetooth.c:64-65 | any well-formed split that adds up to the timeout is that split |
| Bluetooth.ReceiveTimeoutOption | vendor/src/Linux_Drivers/Bluetooth/bluetooth.c:61-62 | the SO_RCVTIMEO value is timeout + 100, wrapping to below 100 past 2^64 - 1 |
| Bluetooth.ReceiveMessage | vendor/src/Linux_Drivers/Bluetooth/bluetooth.c:49-79 | a negative socket returns -1 with nothing done; otherwise the option and wait are set from the timeout, a select() result of 0 or -1 returns -1 without recv(), and any other result returns recv()'s count |
| Bluetooth.CString | vendor/src/Linux_Drivers/Bluetooth/bluetooth.c:102-104 | the C string of a buffer is a prefix of it with no NUL, and it stops at the buffer's first NUL when it stops before the end |
| Bluetooth.StrNEq | vendor/src/Linux_Drivers/Bluetooth/bluetooth.c:102 | strncmp(a, b, n) == 0 holds whenever the buffers are equal; its full meaning is StrNEqMeaning |
| Bluetooth.StrNEqMeaning | vendor/src/Linux_Drivers/Bluetooth/bluetooth.c:102 | strncmp(a, b, n) == 0 exactly when the C strings of a and b agree on their first n characters |
| Bluetooth.PrefixMatch | vendor/src/Linux_Drivers/Bluetooth/bluetooth.c:102 | comparing strlen(name) characters tests that the line starts with name |
| Bluetooth.WholeMatch | vendor/src/Linux_Drivers/Bluetooth/bluetooth.c:99-102 | comparing more characters than name has matches only a line whose C string is exactly name |
| Bluetooth.PartialMatch | vendor/src/Linux_Drivers/Bluetooth/bluetooth.c:99-102 | comparing n <= strlen(name) characters tests that the line starts with name's first n characters |
| Bluetooth.ChunkLength | vendor/src/Linux_Drivers/Bluetooth/bluetooth.c:101 | one fgets call takes at least one and at most 79 characters, stopping after the first newline |
| Bluetooth.Lines | vendor/src/Linux_Drivers/Bluetooth/bluetooth.c:101 | the fgets loop reads no buffer from an empty stream and at least one from any other, never more buffers than characters; LinesPartitionText states the partition |
| Bluetooth.LinesPartitionText | vendor/src/Linux_Drivers/Bluetooth/bluetooth.c:95-101 | the fgets buffers put together are the listing, each holds 1..79 characters, and a newline can only be a buffer's last character |
| Bluetooth.SingleLine | vendor/src/Linux_Drivers/Bluetooth/bluetooth.c:101 | a listing of at most 79 characters with no newline before its end is read as one buffer |
| Bluetooth.ChunkOfCompleteLine | vendor/src/Linux_Drivers/Bluetooth/bluetooth.c:101 | fgets stops right after the newline of a line of at most 79 characters at the front of the stream |
| Bluetooth.LinesAfterCompleteLine | vendor/src/Linux_Drivers/Bluetooth/bluetooth.c:101 | a complete line at the front of the stream is one buffer, and the rest is read as it would be on its own |
| Bluetooth.LinesOfCompleteLines | vendor/src/Linux_Drivers/Bluetooth/bluetooth.c:101 | a stream that starts with complete lines is read as exactly those lines, then as what follows them |
| Bluetooth.SkipDelims | vendor/src/Linux_Drivers/Bluetooth/bluetooth.c:103-104 | strtok skips every leading '(' and stops at the first other character |
| Bluetooth.TokenEnd | vendor/src/Linux_Drivers/Bluetooth/bluetooth.c:103-104 | a strtok token runs up to the next '(' or the end of the string |
| Bluetooth.SecondToken | vendor/src/Linux_Drivers/Bluetooth/bluetooth.c:103-104 | the second strtok token, when there is one, is non-empty and holds no '(', and there is none in a line without '('; which text it is, and when it is NULL, is SecondTokenAfterFirstParen |
| Bluetooth.TokenFrom | vendor/src/Linux_Drivers/Bluetooth/bluetooth.c:104 | strtok(NULL, "(") returns NULL exactly when its scan starts at the end of the string |
| Bluetooth.SecondTokenAfterFirstParen | vendor/src/Linux_Drivers/Bluetooth/bluetooth.c:103-104 | for any line whose first '(' is at index k > 0: the second token is what strtok finds from index k + 1 on, after skipping further '('s, up to the next '(' or the end, and NULL when only '('s follow |
| Bluetooth.SecondTokenBetween | vendor/src/Linux_Drivers/Bluetooth/bluetooth.c:103-104 | when the first '(' is at k > 0 and the next '(' (or the end) is at t > k + 1, the second token is exactly the text strictly between them |
| Bluetooth.SecondTokenOfSplit | vendor/src/Linux_Drivers/Bluetooth/bluetooth.c:103-104 | for `a(token(rest` with a and token non-empty and holding no '(', the second token is token, whatever rest holds |
| Bluetooth.SecondTokenOfEntry | vendor/src/Linux_Drivers/Bluetooth/bluetooth.c:103-104 | for `name(rest` with name and rest non-empty and holding no '(', the second token is the whole of rest |
| Bluetooth.StoreAddress | vendor/src/Linux_Drivers/Bluetooth/bluetooth.c:104-105 | baddr holds 18 bytes, its last is NUL, and its C string is the token cut to at most 17 characters |
| Bluetooth.StoreShortToken | vendor/src/Linux_Drivers/Bluetooth/bluetooth.c:104-105 | a token shorter than 17 characters is stored whole |
| Bluetooth.StoreEntryTail | vendor/src/Linux_Drivers/Bluetooth/bluetooth.c:104-105 | copying 17 characters of `address)\n` stores exactly the address and a NUL |
| Bluetooth.Extract | vendor/src/Linux_Drivers/Bluetooth/bluetooth.c:103-107 | a matched line always ends the search, with an address or with a missing token |
| Bluetooth.ReturnCode | vendor/src/Linux_Drivers/Bluetooth/bluetooth.c:107-110 | discoverDevice returns 0 exactly when an address was stored and -1 exactly when no line matched |
| Bluetooth.EntryYieldsAddress | vendor/src/Linux_Drivers/Bluetooth/bluetooth.c:103-105 | for a listing entry `device (address)` with a non-empty device name, a 17-character address, no '(' in either and no NUL in either, the stored address is exactly that address followed by NUL |
| Bluetooth.DiscoverLines | vendor/src/Linux_Drivers/Bluetooth/bluetooth.c:101-110 | the result is "not found" (-1) exactly when no buffer matches; otherwise it comes from the first matching buffer |
| Bluetooth.DiscoverDevice | vendor/src/Linux_Drivers/Bluetooth/bluetooth.c:92-111 | as written, with len = sizeof(char *) = 8: -1 exactly when no fgets buffer agrees with name on 8 characters; otherwise the first such buffer is parsed |
| Bluetooth.DiscoverDecidedBy | vendor/src/Linux_Drivers/Bluetooth/bluetooth.c:101-107 | as written, the first buffer agreeing with the name on 8 characters decides the result |
| Bluetooth.AsWrittenTakesNamesakeFirst | vendor/src/Linux_Drivers/Bluetooth/bluetooth.c:99-102 | as written, a line for another device whose name shares the first 8 characters matches |
| Bluetooth.AsWrittenShortNameNeverMatchesEntry | vendor/src/Linux_Drivers/Bluetooth/bluetooth.c:99-102 | as written, a name shorter than 8 characters never matches a listing entry line, which ends in a newline |
| Bluetooth.AsWrittenShortNameMatchesNoLine | vendor/src/Linux_Drivers/Bluetooth/bluetooth.c:99-110 | as written, a name shorter than 8 characters matches no complete, NUL-free line, so every listing made of such lines yields -1 |
| Bluetooth.AsWrittenMissesShortName | vendor/src/Linux_Drivers/Bluetooth/bluetooth.c:99-110 | as written, any listing of complete, NUL-free lines that holds the entry of a device whose name is shorter than 8 characters yields -1 for that name |
| Bluetooth.MatchIsPrefix | vendor/src/Linux_Drivers/Bluetooth/bluetooth.c:99-102 | with len = strlen(name), "no buffer matches" and "first match" are the same as "no line starts with name" and "first line starting with name" |
| Bluetooth.DiscoverDeviceByName | vendor/src/Linux_Drivers/Bluetooth/bluetooth.c:92-111 | corrected: -1 exactly when no line starts with name; otherwise the first line starting with name is parsed |
| Bluetooth.ByNameDecidedBy | vendor/src/Linux_Drivers/Bluetooth/bluetooth.c:101-107 | with len = strlen(name), the first line starting with the name decides the result |
| Bluetooth.ByNameFirstLineDecides | vendor/src/Linux_Drivers/Bluetooth/bluetooth.c:101-107 | with len = strlen(name), a complete first line that starts with the name decides the result |
| Bluetooth.ByNameFindsEntry | vendor/src/Linux_Drivers/Bluetooth/bluetooth.c:92-111 | corrected: for an entry `device (address)` with a non-empty device name, a 17-character address, no '(', NUL or newline in either, and the whole entry at most 79 characters, a listing whose lines before the entry are complete and none of which starts with the device name yields that entry's address and return code 0, whatever follows the entry |
| Bluetooth.ByNameTakesLongerNameFirst | vendor/src/Linux_Drivers/Bluetooth/bluetooth.c:99-107 | with len = strlen(name), an entry for a longer name that begins with the name asked for, listed first, is taken and its address returned |
| Bluetooth.ParenNameToken | vendor/src/Linux_Drivers/Bluetooth/bluetooth.c:103-104 | as written, the entry of a device named `d1(d2`, with d1 non-empty, no further '(' in d1 or d2 and no NUL in d1, d2 or the address, yields `d2 ` (the rest of the name and the blank) as its second token |
| Bluetooth.AsWrittenParenInName | vendor/src/Linux_Drivers/Bluetooth/bluetooth.c:103-105 | as written, for a device named `d1(d2` with d1 non-empty, d2 shorter than 16 characters, a 17-character address, and no further '(' or NUL in d1, d2 or the address, the stored C string is `d2 `, never the address |
| Bluetooth.DiscoverFirstLineDecides | vendor/src/Linux_Drivers/Bluetooth/bluetooth.c:101-107 | as written, a complete first line that agrees with the name on its first 8 characters decides the result, whatever follows |
| Bluetooth.AsWrittenParenNameListing | vendor/src/Linux_Drivers/Bluetooth/bluetooth.c:99-107 | as written, a device named `d1(d2` with d1 non-empty, d2 shorter than 16 characters, the whole name at least 8 characters, a 17-character address, no further '(', NUL or newline in d1, d2 or the address, and the entry at most 79 characters, matches its own one-line listing and gets `d2 ` stored, not its address |
| Bluetooth.LastParen | vendor/src/Linux_Drivers/Bluetooth/bluetooth.c:103-104 | corrected: the index of the last '(', which is a '(' with none after it, or -1 when there is none |
| Bluetooth.ExtractAtLastParen | vendor/src/Linux_Drivers/Bluetooth/bluetooth.c:103-105 | corrected: a matched line always ends the search, and an address is stored only from a line holding a '(' |
| Bluetooth.LastParenFindsAddress | vendor/src/Linux_Drivers/Bluetooth/bluetooth.c:103-105 | corrected: for every entry `device (address)` with a NUL-free device name, '(' included, and a 17-character address, the stored address is exactly that address followed by NUL |
| Dio96H.VersionCodePacked | vendor/src/Linux_Drivers/PCI/pci-dio96H/dio96H.c:31-33 | with release and sublevel below 256, VERSION_CODE(v, r, s) == v * 65536 + r * 256 + s |
| Dio96H.VersionCode | vendor/src/Linux_Drivers/PCI/pci-dio96H/dio96H.c:32 | (definition) VERSION_CODE(vers, rel, seq) as vers shifted left by 16, OR rel shifted left by 8, OR seq, over unbounded naturals; VersionCodePacked and VersionCodeOrder state what it means |
| Dio96H.VersionCodeOrder | vendor/src/Linux_Drivers/PCI/pci-dio96H/dio96H.c:32 | with release and sublevel below 256, comparing codes is comparing (v, r, s) lexicographically, and equal codes mean equal triples |
| Dio96H.BoundValues | vendor/src/Linux_Drivers/PCI/pci-dio96H/dio96H.c:35-69 | the twelve version codes the blocks compare against, in hexadecimal |
| Dio96H.Directives | vendor/src/Linux_Drivers/PCI/pci-dio96H/dio96H.c:35-69 | (definition) the directives the nine independent `#if` blocks yield for a version, in source order; AtMostOneDirective, DirectivesByRange and the lemmas after it state what it means |
| Dio96H.AtMostOneDirective | vendor/src/Linux_Drivers/PCI/pci-dio96H/dio96H.c:35-69 | the nine blocks are pairwise disjoint: every version fires at most one directive |
| Dio96H.DirectivesByRange | vendor/src/Linux_Drivers/PCI/pci-dio96H/dio96H.c:35-69 | the directive each version range gets, block by block |
| Dio96H.TooOldExactly | vendor/src/Linux_Drivers/PCI/pci-dio96H/dio96H.c:35-37 | the "too old" error fires exactly for versions below 2.4.0 |
| Dio96H.TooNewExactly | vendor/src/Linux_Drivers/PCI/pci-dio96H/dio96H.c:67-69 | the "too new" error fires exactly for versions from 4.20.0 on |
| Dio96H.GapsExactly | vendor/src/Linux_Drivers/PCI/pci-dio96H/dio96H.c:39-65 | nothing fires exactly in [2.4.255, 2.6.0), [2.6.27, 2.6.29), [2.6.35, 3.0.0) and [3.20.0, 4.0.0) |
| Dio96H.IncludeExactly | vendor/src/Linux_Drivers/PCI/pci-dio96H/dio96H.c:35-69 | a version gets exactly one directive and it is an include exactly when it is outside the two error ranges and the four gaps |
| Dio96H.SelectedFile | vendor/src/Linux_Drivers/PCI/pci-dio96H/dio96H.c:39-65 | no file is included exactly for the two error ranges and the four gaps; otherwise the blocks yield exactly one directive, the include of the file returned |
| Dio96H.Selects2626 | vendor/src/Linux_Drivers/PCI/pci-dio96H/dio96H.c:47-49 | every version with 2.6.22 <= v < 2.6.27 includes dio96H_2_6_26.c and nothing else |

## Left out

- The PCI-DAS1602/16 analog driver (scan engine, pacer divisor search, FIFO draining, calibration) is not modelled: it is not part of the digital-I/O, Bluetooth and version-dispatch logic this project covers.
- `BOARD(minor)` and the headers `dio24H.h` / `pci-dio24H.h` are not part of this model. The board index is a parameter of each method. `MAX_BOARDS`, `IOCTL_MAGIC` and `IOCTL_MAXNR` are constructor parameters. The ioctl command comes already split into its type field, its ordinal field and the `case` label it equals.
- Dio24H.DecodePortC: the PORT_* values of `dio24H.h` are not part of this model; the values 0..5 of `pci-das1602-16.h:87-92` are assumed (PORT_OUTPUT 0, PORT_INPUT 1, HIGH_PORT_INPUT 2, HIGH_PORT_OUTPUT 3, LOW_PORT_INPUT 4, LOW_PORT_OUTPUT 5).
- Dio24H.PortAddress and Dio24H.ControlAddress: the values of DIO_PORTA, DIO_PORTB, DIO_PORTC and DIO_CNTRL_REG come from the driver's headers (`dio24H.h` / `pci-dio24H.h`), which are not part of this model. They are assumed to be base2 + 0, 1, 2 and 3, the 8255's A1 A0 register order; the analog board's `a2dc.h:92-95` places its own 8255 at base3 + 4..7, so the offsets differ between boards.
- Dio24H.Driver.Open and Dio24H.Driver.Close: the source does not bounds-check the masked minor number before indexing `Chan`. The model requires the channel to be port A, B or C instead of modelling the out-of-bounds access.
- Dio24H.Driver.Ioctl: INTERRUPT_ENABLE, INTERRUPT_DISABLE and INTERRUPT_POLARITY are modelled only by their return code 0. Their read-modify-write of the PCI bridge's interrupt register is hardware I/O.
- Dio24H.Driver.Read: the blocking `interruptible_sleep_on` taken when interrupts are enabled and the file is blocking is left out (concurrency). The value read is a parameter (`inb`).
- Dio24H.Driver.InitOne: the read and rewrite of the PCI bridge's interrupt register (`control_reg`) is left out (hardware I/O). The outcomes of `request_irq` and `pci_enable_device` are parameters.
- `dio24H_Interrupt`, module init/exit, `register_chrdev`, `free_irq` and PCI enumeration: kernel glue and interrupt-context hardware I/O.
- Bluetooth.ReceiveMessage: `setsockopt`, `select` and `recv` are not executed. The results of `select` and `recv` are parameters, and the model records which calls would be made with which values. The bytes `recv` stores are not modelled.
- Bluetooth.DiscoverDevice: the `popen` of `bt-device --list` is replaced by the text it prints, passed as a parameter; `pclose` is left out. A matching line with no second token makes the source pass NULL to `strncpy`; the model reports it as `NullToken` instead of modelling undefined behaviour.
- Bluetooth.DiscoverDevice: sizeof(char *) is taken as 8 (LP64, `POINTER_SIZE`). On a 32-bit target the compare length would be 4; the model does not cover that width.
- Bluetooth.DiscoverDeviceByName: the strlen correction still takes the first device whose name begins with the name asked for, so `BTH-2` listed before `BTH` is taken for `BTH` (Bluetooth.ByNameTakesLongerNameFirst). Telling the two apart needs the name followed by ` (`, which the model does not add.
- Bluetooth.DiscoverDevice: each `char` of the listing stands for one byte. The lengths strncmp, fgets and strncpy work with (8, 79, 17) count bytes, so a name with multi-byte characters is compared on fewer than 8 characters; the model does not encode characters.
- `openDevice` (socket allocation, `str2ba` and `connect`): network I/O.
- `mccusb.py`, `examples/rxcntl.py`, the interactive test programs and `docs/conf.py`: device wrappers, floating-point conversions and interactive I/O outside the modelled logic.

## Findings

| source | as written | input that shows it | evidently intended | confidence | as-written member | corrected member |
|---|---|---|---|---|---|---|
| vendor/src/Linux_Drivers/Bluetooth/bluetooth.c:99 | `len = sizeof(name)` on a `char *` compares 8 characters (pointer width on LP64) whatever the name's length | name `BTH` with the listing `BTH (00:11:22:33:44:55)\n`: the 8-character compare reaches the line's ` (` where the name has ended, so discoverDevice returns -1; a name of 8 or more characters also matches any device sharing its first 8 | `len = strlen(name)`: the first line that starts with the name | not executed; high | Bluetooth.AsWrittenMissesShortName | Bluetooth.ByNameFindsEntry |
| vendor/src/Linux_Drivers/Bluetooth/bluetooth.c:103-104 | the address is taken as the second `(`-delimited token of the line | a device named `Speaker (K)` with the listing `Speaker (K) (00:11:22:33:44:55)\n`: the 8-character compare matches on `Speaker `, the second token is `K) `, so baddr holds `K) ` and not the address | the address inside the entry's last parentheses | not executed; medium | Bluetooth.AsWrittenParenNameListing | Bluetooth.LastParenFindsAddress |
