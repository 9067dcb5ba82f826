# heksa: the dump formatting engine, in Dafny

heksa is a hex dump tool. This project models its line renderer and the small pure pieces that configure it, and proves properties of them:

- the formatter group, which turns one chunk of bytes into a line of columns;
- the per-byte formatters and their composites;
- the ANSI colour escapes and the colour configuration readers;
- the zero-padded and human-readable offset formatters;
- the name registries that map command-line names to formatters;
- the `units.Parse` numeric argument parser;
- the older display helpers still in the tree, including both versions of `nearest`.

Rendered output is a sequence of tokens. A token is either an escape sequence or one visible glyph, so widths can be stated by counting glyphs. `‡`, `█` and `┊` are one glyph each, even though each is several bytes in UTF-8.

Files, one module each:

- `wrappers.dfy`: `Option` and `Result`. A `Failure` stands for Go's error return, and also for a `panic` with its message.
- `arith.dfy`: powers, division facts, and counting multiples.
- `goints.dfy`: the int64 range and Go's wrap-around conversions.
- `numerals.dfy`: `%x`, `%d`, `%o` and `%b` numerals, their values, zero padding and order.
- `tokens.dfy`: tokens, visible width, concatenation of parts.
- `ansi.dfy`: the SGR escape constants and `AnsiColor.String`.
- `tables.dfy`: the per-byte lookup tables.
- `byteformatters.dfy`: the eleven byte formatters.
- `formattergroup.dfy`: `base.New` and `FormatterGroup.Print`.
- `offsetformatters.dfy`: the hex, decimal and octal offset formatters.
- `human.dfy`: the human-readable offset formatter.
- `registry.dfy`: the name registries of `pkg/reader` and of the older root package.
- `colorconfig.dfy`: `GetColorGroupColorDefaults` and `GetColors`.
- `units.dfy`: `units.Parse`, including the `strconv.ParseInt(s, 0, 64)` it relies on.
- `legacydisplay.dfy`: `pkg/display`.
- `bittrick.dfy`: the bit-trick `nearest` of the root `display` package.

Design decisions:

- The renderer follows the code, not the intent stated around it. `changePalette` is set to true and never cleared, so a colour escape precedes every data byte, including inside runs of equal colours. The renderer's `ByteFormatter` interface has only `Print` and `GetPrintSize`, so `UseSplitter` is never consulted. Visual splitters go into every column, the block column included (`FormatterGroup.BlockColumnIsSplit`).
- Palette entries, the splitter break and the composites' break strings are colour escapes in every configuration the program builds, so they are modelled as escape tokens.
- Go map iteration order is unspecified, so a choice that depends on it is stated as "one of":
  - which missing colour group `GetColorGroupColorDefaults` reports;
  - which unit `units.Parse` tries first. `Units.UnitsExclusive` shows this cannot change the result.
- The colour readers take the file as a sequence of lines. `bufio.Scanner` splitting is I/O.

## Model

| member | source | states |
|---|---|---|
| `Ansi.ColorString` | pkg/color/ansi.go:16-19 | The string is the decimal numeral of the colour number (with '-' for a negative one) followed by exactly one 'm'. |
| `Ansi.ColorStringInjective` | pkg/color/ansi.go:7-19 | Two colours render alike exactly when their colour numbers agree. The Bold, Underline, Blink, Crossed and Italic flags never change the string. |
| `ByteFormatters.NewBlock` | pkg/reader/byteFormatters/block/block.go:12-16 | block.New yields a formatter whose UseSplitter is false and whose print size is 1. |
| `ByteFormatters.NewComposites` | pkg/reader/byteFormatters/hexWithAscii/hex_with_ascii.go:18-24 | Each composite constructor installs its own primary and keeps both break strings unchanged. Hex-with-ASCII installs hex, dec-with-ASCII installs decimal, and the three bit composites install bit. Every composite wants splitters. |
| `ByteFormatters.UnderlinedShape` | pkg/reader/byteFormatters/bit/bit.go:19-29 | For a string of four or more characters, the bit loop emits: underline-on, the first four characters, underline-off, then the rest plain. |
| `ByteFormatters.BitPrintShape` | pkg/reader/byteFormatters/bit/bit.go:18-32 | The bit printer shows exactly its table entry once escapes are removed. Underline-on occurs once, before the first character. Underline-off comes right after the fourth character, so only the high nibble is underlined. |
| `ByteFormatters.UnderlinedText` | pkg/reader/byteFormatters/bit/bit.go:18-36 | Underlining a string of four or more characters adds only escapes: without them it reads the string itself, and it is as many glyphs wide as the string is long. So the bit printer's 8 characters take 8 columns. |
| `ByteFormatters.BracketedVisible` | pkg/reader/byteFormatters/bitWithAscii/bit_with_ascii.go:28-30 | The tail every composite appends is 3 glyphs wider than its auxiliary text. Without escapes it reads " [" + aux + "]". |
| `ByteFormatters.CompositeText` | pkg/reader/byteFormatters/decWithAscii/dec_with_ascii.go:26-32 | Whatever the primary prints, appending the bracketed tail adds |aux| + 3 glyphs, and the text without escapes becomes the primary's text followed by " [" + aux + "]". |
| `ByteFormatters.PrintSize` | pkg/reader/byteFormatters/ascii/ascii.go:19-21 | GetPrintSize is between 1 and 14, and it is 1 exactly for the ASCII and block formatters, which draw one glyph per byte. |
| `ByteFormatters.UseSplitter` | pkg/reader/byteFormatters/octal/oct.go:23-25 | Every formatter except block asks for visual splitters. |
| `ByteFormatters.Print` | pkg/reader/byteFormatters/hexWithAscii/hex_with_ascii.go:26-36 | For every formatter as its constructor builds it, and for every byte, the visible width of Print equals GetPrintSize, and Print with escapes removed equals an independently written plain text: the table entry, and for composites that entry followed by the auxiliary entry in brackets. |
| `ByteFormatters.SimplePrint` | pkg/reader/byteFormatters/hex/hex.go:17-23 | Each of the six plain formatters prints exactly GetPrintSize glyphs and, without escapes, its table entry. The bit printer's underlining adds only escapes, and block prints the full block. |
| `ByteFormatters.AuxText` | pkg/reader/byteFormatters/bitWithDecimal/bit_with_dec.go:26-36 | A composite's auxiliary entry is exactly as wide as GetPrintSize leaves after the primary and the three bracket glyphs, and it is the text the plain rendering puts in the brackets. |
| `ByteFormatters.CompositePrint` | pkg/reader/byteFormatters/bitWithHex/bit_with_hex.go:26-36 | A composite prints its primary, then " ", "[", the auxiliary entry and "]" between its break escapes: GetPrintSize glyphs whose text is the plain rendering. |
| `ByteFormatters.PrintNarrow` | pkg/reader/byteFormatters/block/block.go:18-20 | Every glyph a formatter draws is ASCII or the full block. With NarrowAvoids, none is a column splitter or a padding mark. |
| `FormatterGroup.New` | pkg/reader/byteFormatters/base/iface.go:31-54 | A missing formatter list fails with "nil formatter". Otherwise a zero width fails with "zero width". Otherwise the group keeps every argument and installs " " as the visual splitter, "┊" as the column splitter and the Grey93 foreground escape as the splitter break. |
| `FormatterGroup.SplitterBreakIsGrey93` | pkg/reader/byteFormatters/base/iface.go:52 | The splitter break is SetForeground followed by AnsiColor{Grey93}.String(), whatever the style flags. |
| `FormatterGroup.OfKeeps` | pkg/reader/byteFormatters/base/iface.go:9-14 | Through the two-method interface, every concrete formatter keeps the promise of the GetPrintSize comment. It prints exactly that many glyphs per byte, and never a splitter or padding mark. |
| `FormatterGroup.Print` | pkg/reader/byteFormatters/base/iface.go:56-109 | The output is the columns of all formatters joined as the reference layout describes. When every formatter keeps its width promise, the visible width is LineWidth(g), whatever the chunk. |
| `FormatterGroup.WritePart` | pkg/reader/byteFormatters/base/iface.go:102-105 | A column is followed by the splitter break and "┊" unless it is the last column, so every non-last part ends in the column splitter. |
| `FormatterGroup.WriteColumn` | pkg/reader/byteFormatters/base/iface.go:66-100 | The inner loop produces the Width slots of the column. Its visible width is the closed form ColumnWidth: cells, gaps and one splitter per completed group. |
| `FormatterGroup.WriteSlot` | pkg/reader/byteFormatters/base/iface.go:67-99 | Slot i is visibly: one splitter if visualSplitterSize ≠ 0, i ≠ 0 and i % visualSplitterSize == 0; then the print size; then one space if i < Width-1 and the print size exceeds 1. |
| `FormatterGroup.WriteCell` | pkg/reader/byteFormatters/base/iface.go:72-95 | A data slot is palette[tmp[i]] followed immediately by Print(tmp[i]), for every data byte with no run coalescing. A slot past the data holds exactly print-size padding marks. |
| `FormatterGroup.SplittersPerColumn` | pkg/reader/byteFormatters/base/iface.go:67-70 | The visual splitters counted slot by slot number (Width-1)/visualSplitterSize. A size of 0 gives none. |
| `FormatterGroup.ColumnVisible` | pkg/reader/byteFormatters/base/iface.go:66-99 | A column's visible width depends only on the group and the formatter. A short chunk is padded to the same width as a full one. |
| `FormatterGroup.SeparatorShape` | pkg/reader/byteFormatters/base/iface.go:102-104 | After column d comes one visible "┊" when d is not the last column, and nothing after the last. |
| `FormatterGroup.LineVisible` | pkg/reader/byteFormatters/base/iface.go:62-106 | Every line is exactly LineWidth(g) glyphs wide: all columns plus one splitter between each two. |
| `FormatterGroup.LinesAligned` | pkg/reader/byteFormatters/base/iface.go:59-99 | Any two chunks, including a short last one, render to lines of equal visible width. |
| `FormatterGroup.BlockColumnIsSplit` | pkg/reader/byteFormatters/base/iface.go:9-14 | Block's UseSplitter is false, yet with Width 16 and splitter size 8 its column takes 17 glyphs, one of them a visual splitter. The interface never consults the flag. |
| `FormatterGroup.DataPlacement` | pkg/reader/byteFormatters/base/iface.go:72-81 | In slot i of a data byte, the palette escape sits right after the visual splitter, and the formatter's output immediately follows it. |
| `FormatterGroup.SlotPlacement` | pkg/reader/byteFormatters/base/iface.go:66-100 | Slot i occupies the column right after the first i slots. |
| `FormatterGroup.ColumnTruncates` | pkg/reader/byteFormatters/base/iface.go:66-72 | Bytes at index Width or beyond never reach a column: the column of tmp equals the column of its first min(len, Width) bytes. |
| `FormatterGroup.LineTruncates` | pkg/reader/byteFormatters/base/iface.go:56-72 | The whole line depends only on the first min(len, Width) bytes. |
| `FormatterGroup.SlotCounts` | pkg/reader/byteFormatters/base/iface.go:66-99 | A slot never holds "┊". It holds print-size padding marks exactly when it lies past the data. |
| `FormatterGroup.PaddingCounts` | pkg/reader/byteFormatters/base/iface.go:86-95 | A cell past the data holds exactly print-size padding marks "‡" and no column splitter, whatever the formatter draws. |
| `FormatterGroup.PaddingSlotEscapes` | pkg/reader/byteFormatters/base/iface.go:86-95 | A slot past the data holds one escape, palette[0] right after its visual splitter, when it is the first slot past the data (slot len(tmp)), and no escape otherwise. |
| `FormatterGroup.PaddingEscape` | pkg/reader/byteFormatters/base/iface.go:86-95 | The column is its data slots followed by its padding slots. The padding holds exactly one escape, palette[0], at the start of the first padding cell, when the chunk is shorter than Width, and none when it is not. |
| `FormatterGroup.ColumnCounts` | pkg/reader/byteFormatters/base/iface.go:86-95 | A column has no "┊". It has (Width - len(tmp)) × print size padding marks when the chunk is short, and none otherwise. |
| `FormatterGroup.SplitterCount` | pkg/reader/byteFormatters/base/iface.go:102-105 | A line holds exactly formatterCount-1 column splitters, never one after the last column. |
| `OffsetFormatters.New` | pkg/reader/offsetFormatters/hex/hex.go:20-33 | The width is the larger of the floor (8 for hex, 6 for decimal and octal) and the length of the signed file size written in the printer's base. |
| `OffsetFormatters.UnknownSizeWidth` | pkg/reader/offsetFormatters/hex/hex.go:21-24 | The unknown-size sentinel -1 is written "-1", so the width is the floor. |
| `OffsetFormatters.Print` | pkg/reader/offsetFormatters/decimal/decimal.go:39-41 | The output is a numeral in the printer's base that parses back to the offset. It is zero-padded to the width, or longer when the offset needs more digits, and never truncated. |
| `OffsetFormatters.OffsetsWithinFileFit` | pkg/reader/offsetFormatters/decimal/decimal.go:20-41 | Every offset up to a known file size prints at exactly the width. |
| `OffsetFormatters.PrintOrder` | pkg/reader/offsetFormatters/octal/octal.go:40-42 | For offsets that fit the width, the printed strings compare character by character as the offsets compare numerically. |
| `HumanOffset.New` | pkg/reader/offsetFormatters/human/human.go:14-36 | Only units 1000 (width 11) and 1024 (width 12) are accepted. Any other unit fails with "invalid unit formatSize <unit>". |
| `HumanOffset.Print` | pkg/reader/offsetFormatters/human/human.go:38-55 | Below the unit: the count right-aligned in 8 columns plus " B " or " B  ", exactly the format width. Otherwise: div = unit^(exp+1) with 1 ≤ b/div < unit, exp ≤ 5, and the letter "KMGTPE"[exp]. |
| `HumanOffset.ScaleStep` | pkg/reader/offsetFormatters/human/human.go:50-53 | One loop pass multiplies the divisor by the unit without exceeding the offset, so it never overflows 64 bits, and increments the exponent. |
| `HumanOffset.ByteCountFits` | pkg/reader/offsetFormatters/human/human.go:41-44 | A count below 1024, with its leading space, fits the 8 columns. |
| `HumanOffset.ExponentBound` | pkg/reader/offsetFormatters/human/human.go:50-55 | Any power of 1000 that fits in 64 bits has exponent at most 6, so exp ≤ 5 and the suffix index is in range. |
| `HumanOffset.ExponentUnique` | pkg/reader/offsetFormatters/human/human.go:48-55 | The bracket [unit^(e+1), unit^(e+2)) determines e, so the letter is K for [unit, unit²), M for [unit², unit³), and so on. |
| `Registry.ShowList` | pkg/reader/offset.go:37 | Go's %v of a string list is "[", the names separated by single spaces, then "]". |
| `Registry.SpacedFront` | pkg/reader/offset.go:37 | Between any two consecutive names of %v's list there is exactly one space. |
| `Registry.SpacedLength` | pkg/reader/offset.go:37 | The inside of a non-empty list is as long as its names together plus one space per gap, so nothing else is inserted. |
| `Registry.FirstUnknown` | pkg/reader/viewers.go:39-43 | The index of the first name the table does not know: every earlier name is known. |
| `Registry.LookupAll` | pkg/reader/viewers.go:39-50 | Success exactly when the list is non-empty and every name is known; then one entry per name, in order. The first unknown name fails with "invalid: <name>"; an empty list fails with "there has to be at least one viewer". |
| `Registry.ViewKindOf` | pkg/reader/viewers.go:28-34 | Exactly hex, asc, bit, dec and oct are known. |
| `Registry.GetViewers` | pkg/reader/viewers.go:37-53 | Success exactly for a non-empty list of known names. The result keeps input order and duplicates. Errors are as LookupAll states. |
| `Registry.OffsetKindOf` | pkg/reader/offset.go:26-31 | Exactly hex, dec, oct and per are known. |
| `Registry.GetOffsetFormatters` | pkg/reader/offset.go:34-61 | More than two names fails first, with the list in the message. Success exactly when at most two names are all "no", "" or known. The result holds one formatter per kept name, in order, so 0, 1 or 2 of them. Any other name fails with "invalid: " and the list. |
| `Registry.KeptBound` | pkg/reader/offset.go:42-57 | Skipping "no" and "" never yields more formatters than names. |
| `Registry.RootOffsetKindOf` | offset.go:23-27 | Exactly hex, dec and per are known; oct is not. |
| `Registry.GetOffsetViewer` | offset.go:35-42 | A known name gives exactly its one shared viewer. Any other name, including "oct", "no" and "", fails with "invalid: <name>". |
| `Registry.RootViewKindOf` | viewers.go:25-30 | Exactly hex, asc, bit and dec are known. |
| `Registry.GetRootViewers` | viewers.go:38-54 | Success exactly for a non-empty list of known names, in order with duplicates. The first unknown name or an empty list fails as in the newer package. |
| `ColorConfig.Lead` | pkg/color/config.go:36 | The leading white space (unicode.IsSpace) ends at the first character that is not white space. |
| `ColorConfig.Trail` | pkg/color/config.go:85 | The trailing white space starts right after the last character that is not white space. |
| `ColorConfig.TrimSpace` | pkg/color/config.go:36 | The trimmed line starts and ends with non-space characters, or everything was white space. |
| `ColorConfig.TrimSpaceUnique` | pkg/color/config.go:85 | Any core with non-space ends, wrapped in white space on both sides, is exactly what TrimSpace returns. |
| `ColorConfig.TrimSpaceIdempotent` | pkg/color/config.go:36 | Trimming twice trims nothing more. |
| `ColorConfig.Match` | pkg/color/config.go:41-46 | A match satisfies the expression ^([^=]+)=(V+): a non-empty name without '=', then '=', then a maximal non-empty run of value characters. |
| `ColorConfig.MatchComplete` | pkg/color/config.go:29 | Whatever the expression matches, the matcher returns that very name and value, so the match is unique and nothing is missed. |
| `ColorConfig.Directive` | pkg/color/config.go:36-46 | A line yields a directive only when, trimmed, it is not a ";" comment and matches. |
| `ColorConfig.DirectiveComplete` | pkg/color/config.go:85-94 | Every trimmed non-comment line that matches is read. |
| `ColorConfig.SpacedAssignmentIgnored` | pkg/color/config.go:29 | "X = 1" is not a group default, because the value must start right after '=' and may not hold white space. |
| `ColorConfig.GroupsDomain` | pkg/color/config.go:48-55 | A group is defined exactly when some line names it. Extra names are kept. |
| `ColorConfig.LastDefinitionWins` | pkg/color/config.go:35-56 | A group's escape comes from the last line naming it. LineEven and LineOdd become esc+param+"m"; every other group becomes SetForeground+param+"m". |
| `ColorConfig.GetColorGroupColorDefaults` | pkg/color/config.go:20-65 | Success exactly when every required group is defined, and then the value is the groups the lines define. A failure reads "group <name> was not found" for some required group that no line defines. |
| `ColorConfig.CollectGroups` | pkg/color/config.go:35-62 | The two loops over parsed lines: the group map, then the required-name check, with the same contract. |
| `ColorConfig.DigitRuns` | pkg/color/config.go:98 | Every match of (\d+) is a non-empty decimal numeral. The three lemmas below fix the matches of every string. |
| `ColorConfig.DigitRunsSkip` | pkg/color/config.go:98 | A leading non-digit is never part of a match and does not change the matches after it. |
| `ColorConfig.DigitRunsStep` | pkg/color/config.go:98 | A leading run of digits ended by a non-digit is the first match when it is non-empty, and the remaining matches are those of the text after the non-digit. |
| `ColorConfig.DigitRunsSeparated` | pkg/color/config.go:73 | A digit run ended by a non-digit is found first, and the search resumes after the separator. |
| `ColorConfig.DigitRunsWhole` | pkg/color/config.go:73 | A string of digits alone is one match. |
| `ColorConfig.RangeIsTwoNumbers` | pkg/color/config.go:98-109 | "0-31" names bytes 0 and 31 only, not the range. |
| `ColorConfig.First` | pkg/color/config.go:98 | FindAllString's limit: exactly min(n, number of matches) matches, the first ones in order. |
| `ColorConfig.LineRuns` | pkg/color/config.go:96-98 | A line's numbers are exactly the first min(1024, count) digit runs of its value, in order, each a decimal numeral. |
| `ColorConfig.Initial` | pkg/color/config.go:68-71 | All 256 entries start as groups["Default"], or "" when it is missing. |
| `ColorConfig.StoreNumbers` | pkg/color/config.go:103-110 | The inner loop stores the line's numbers in order and stops at the first failure, as the reference fold does. |
| `ColorConfig.StoreAllStops` | pkg/color/config.go:104-107 | Once a number fails, the rest of the line changes nothing. |
| `ColorConfig.StoreLinesStops` | pkg/color/config.go:84-112 | Once a line fails, the later lines change nothing. |
| `ColorConfig.GetColors` | pkg/color/config.go:67-115 | The loop's result equals the reference fold: the Default table, then every directive line stored in file order. In that fold, a number above 2^63-1 stops with the partly filled table and Atoi's range error, and a number from 256 up to 2^63-1 is the index panic. |
| `ColorConfig.ColorDirectives` | pkg/color/config.go:84-114 | The outer loop over parsed lines has the same contract as GetColors. |
| `ColorConfig.StoreAllEffect` | pkg/color/config.go:103-110 | A clean line sets exactly the bytes it lists to its group's escape, and leaves every other byte as it was. |
| `ColorConfig.ColorsAreLastAssignments` | pkg/color/config.go:67-115 | On a clean finish every byte holds the escape of the last line that lists it, or Default if none does. An unknown group gives "". |
| `ColorConfig.CleanIffBytes` | pkg/color/config.go:103-110 | GetColors finishes without error or panic exactly when every listed number is below 256. |
| `ColorConfig.StoreAllCleanIffBytes` | pkg/color/config.go:104-109 | One line stores cleanly exactly when all its numbers are below 256. |
| `GoInts.WrapInt64` | pkg/units/units.go:44-46 | int64 multiplication wraps: the result is in int64 range, congruent to the exact product modulo 2^64, and unchanged when the product fits. |
| `GoInts.Uint64Of` | pkg/display/hex.go:28 | uint64(s) of an int64 keeps non-negative values and adds 2^64 to negative ones. |
| `Units.Multipliers` | pkg/units/units.go:8-17 | KB, MB, GB, TB are 10^3, 10^6, 10^9, 10^12 and KiB, MiB, GiB, TiB are 2^10, 2^20, 2^30, 2^40. |
| `Units.FindUnit` | pkg/units/units.go:34-40 | A unit that is found is in the table and ends the string. When none is found, the string ends with no unit. |
| `Units.UnitsExclusive` | pkg/units/units.go:19-40 | No unit is a suffix of another, so a string ends with at most one unit and the map's iteration order cannot change Parse. |
| `Units.TrimRight` | pkg/units/units.go:37 | strings.TrimRight removes every trailing character that occurs in the cut set, not one copy of the unit: the result is a prefix, what was removed is all cut-set characters, and the kept end is not one. |
| `Units.TrimRightUnique` | pkg/units/units.go:37 | Those properties determine the result. |
| `Units.ParseUint` | pkg/units/units.go:42 | strconv.ParseUint(s, 0, 64) never exceeds 2^64-1, returns 2^64-1 with a range error, and returns 0 with a syntax error. |
| `Units.ParseInt` | pkg/units/units.go:42 | strconv.ParseInt(s, 0, 64) always yields an int64. An error carries the input it was given, and an empty input is always an error. A syntax error comes with 0; a range error comes with -2^63 for a negative input and 2^63-1 otherwise. |
| `Units.Parse` | pkg/units/units.go:32-49 | The result is always an int64. An error quotes a prefix of the input: the number as written, without its unit, or the whole input when there is no unit. A syntax error comes with 0. An out-of-range number without a unit is clamped by its sign. PlainRoundTrip and UnitRoundTrip give the values of well-formed inputs. |
| `Units.PrefixedExamples` | pkg/units/units.go:30-31 | "0x100", "0o100" and "0b1111", the examples the comment lists, give 256, 64 and 15 without error. |
| `Units.LegacyOctal` | pkg/units/units.go:42 | With base 0, a leading 0 means octal: "017" gives 15. |
| `Units.Underscores` | pkg/units/units.go:42 | With base 0, underscores between digits are allowed: "1_000" gives 1000. |
| `Units.ScanNumeral` | pkg/units/units.go:42 | The digit loop reads an unseparated numeral as its value when that fits 64 bits. |
| `Units.DecimalRoundTrip` | pkg/units/units.go:42 | Every int64 written in decimal parses back to itself without error. |
| `Units.HexRoundTrip` | pkg/units/units.go:30-31 | "0x" and hex digits of a value below 2^63 parse to that value. |
| `Units.PlainRoundTrip` | pkg/units/units.go:32-49 | Every int64 written in decimal without a unit parses through Parse to itself. |
| `Units.FindsWrittenUnit` | pkg/units/units.go:34-40 | A number written with a unit finds that very unit. |
| `Units.NoUnitAfterDigit` | pkg/units/units.go:34-40 | A string ending in a digit has no unit. |
| `Units.UnitRoundTrip` | pkg/units/units.go:34-48 | Any int64 written in decimal with any unit parses to the number times the multiplier, wrapped like int64. |
| `Units.TestPlain` | pkg/units/units_test.go:5-33 | "100" gives 100 and "-100" gives -100, without error. |
| `Units.TestKB` | pkg/units/units_test.go:35-48 | "2KB" gives 2000. |
| `Units.TestMinusKB` | pkg/units/units_test.go:50-63 | "-2KB" gives -2000. |
| `Units.TestKiB` | pkg/units/units_test.go:80-93 | "2KiB" gives 2048. |
| `Units.TestMinusKiB` | pkg/units/units_test.go:95-108 | "-2KiB" gives -2048. |
| `Units.HexWithUnit` | pkg/units/units_test.go:65-78 | "0xAKB" gives 10000: a base prefix and a unit combine. |
| `Units.CutSetQuirk` | pkg/units/units.go:37 | The cut set also eats the hex digit B: "0xBKB" trims to "0x", which is a syntax error. |
| `LegacyDisplay.Nearest` | pkg/display/funcs.go:11-22 | The result is one of 8, 16, 32 and 64. Up to 64 it is the smallest of them holding w; above 64 it is 64. |
| `LegacyDisplay.NearestIsSmallest` | pkg/display/funcs.go:12-21 | Those properties determine the result. |
| `LegacyDisplay.NearestMonotone` | pkg/display/funcs.go:11-22 | A wider request never gets a narrower width. |
| `LegacyDisplay.NearestIdempotent` | pkg/display/funcs.go:11-22 | nearest(nearest(w)) == nearest(w); the four widths are fixed points. |
| `LegacyDisplay.NearestTable` | pkg/display/nearest_test.go:13-62 | 1, 7, 8 → 8; 9, 15, 16 → 16; 17, 31, 32 → 32; 33, 63, 64 → 64; and 0 → 8. |
| `LegacyDisplay.SetFileSize` | pkg/display/hex.go:27-35 | The size becomes uint64. The pad width is even, at least 2, and its hex digit count rounded up to even. |
| `LegacyDisplay.ZeroesAreBytes` | pkg/display/hex.go:29-32 | The pad width counts whole bytes: the size fits zeroes/2 bytes, and beyond one byte it does not fit one byte fewer. |
| `LegacyDisplay.HexDigitCount` | pkg/display/hex.go:29 | A number between 16^(k-1) and 16^k has k hex digits. |
| `LegacyDisplay.ZeroesExamples` | pkg/display/hex.go:29-32 | Sizes 0 and 255 give 2; 256 gives 4. |
| `LegacyDisplay.UnknownSizeZeroes` | pkg/display/hex.go:27-33 | Size -1 wraps to 2^64-1 and gives 16. |
| `LegacyDisplay.OffsetHeader` | pkg/display/hex.go:55-57 | The header is exactly zeroes underscores. |
| `LegacyDisplay.HeaderFitsOffsets` | pkg/display/hex.go:34 | The header is as wide as every offset inside the file padded by the offset format. |
| `LegacyDisplay.HexFormat` | pkg/display/hex.go:37-41 | Two lower-case hex digits denoting the byte, then a space: 3 characters. |
| `LegacyDisplay.HexFormatInjective` | pkg/display/hex.go:39 | Different bytes format differently. |
| `LegacyDisplay.HexEofMatchesFormat` | pkg/display/hex.go:51-53 | EofStr is blank and as wide as one formatted byte. |
| `LegacyDisplay.ToChar` | pkg/display/ascii.go:28-33 | The result is always printable (32..126). It equals the byte exactly when the byte is printable, and is '.' otherwise. |
| `LegacyDisplay.ToCharIdempotent` | pkg/display/ascii.go:28-33 | toChar(toChar(b)) == toChar(b). |
| `LegacyDisplay.FixedPoints` | pkg/display/ascii.go:29-32 | Counted over all 256 byte values, exactly 95 map to themselves. |
| `LegacyDisplay.AsciiEofMatchesFormat` | pkg/display/ascii.go:35-37 | EofStr is one blank, the width of one glyph. |
| `LegacyDisplay.BitFormat` | pkg/display/bit.go:21-25 | Eight binary digits denoting the byte, then a space: 9 characters. |
| `LegacyDisplay.BitFormatDigits` | pkg/display/bit.go:23 | Only '0' and '1' precede the space. |
| `LegacyDisplay.BitEofMatchesFormat` | pkg/display/bit.go:27-29 | EofStr is blank and exactly as wide as Format's 9 characters. |
| `BitTrick.Nearest` | display/funcs.go:11-13 | For every uint8 w the result is 0, 8, 16, 32, 64 or 128, and it is 0 exactly when w is 0 or w + 7 wraps past 255 (w ≥ 249). |
| `BitTrick.MatchesComment` | display/funcs.go:3-12 | The bit trick keeps the cases its comment lists: 1-7 give 8, 9-15 give 16, and 8 and 16 are kept. |
| `BitTrick.AgreesUpToSixteen` | display/funcs.go:11-13 | From 1 to 16 it agrees with the comparison-based nearest. |
| `BitTrick.Seventeen` | display/funcs.go:12 | 17 gives 8, below the request itself, where the comparison-based nearest and its test give 32. |
| `BitTrick.Zero` | display/funcs.go:12 | 0 gives 0, because w - 1 wraps to 255. |

## Left out

- main.go: flag parsing, file and standard-input handling, `Stat` and `Seek`, loading the colour files, the print loop and exit codes. This is I/O glue. The signal channel is concurrency.
- The `Read` functions of pkg/reader/reader.go and reader.go: they call `io.Reader` and `io.Seeker`.
- `bufio.Scanner` line splitting of the colour files: I/O. The readers take the lines as a sequence.
- Percent offsets (pkg/reader/offsetFormatters/percent/percent.go, pkg/display/percent.go): floating-point formatting.
- `HumanOffset.Print`: the quotient is rendered with `% 8.3f` from floating point. The model returns the divisor, exponent and suffix letter instead of the text.
- The `FormatOffset` methods of pkg/display and the `Format` method of pkg/display/ascii.go: they read the position through `Seek`, or render through an external colour library.
- The lookup tables `HexByteToString`, `DecByteToString`, `octByteToString`, `bitByteToString` and `AsciiByteToChar` are defined outside the modelled files. `tables.dfy` gives them the shape of pkg/display's `%02x`, `%03d`, `%03o`, `%08b` and the printable-or-'.' rule. The width properties (`ByteFormatters.Print`, `FormatterGroup.LineVisible` and those built on them) rest on their widths 2, 3, 3, 8 and 1. `ByteFormatters.PrintNarrow` and `FormatterGroup.OfKeeps` also rest on the entries being ASCII, so that no entry contains a column splitter or a padding mark. Both are assumptions about the unseen tables.
- `Ansi.ColorGrey93`: the value of `ColorGrey93_eeeeee` is not in the modelled files. It is taken as 255, the xterm index of #eeeeee.
- `ColorConfig.GetColorGroupColorDefaults`: when several required groups are missing, Go's map order decides which one the error names. The contract says only that it names one of them.
- `ColorConfig.GetColors`: Go's `int`, which `strconv.Atoi` returns, is taken as 64 bits. On a 32-bit platform, numbers from 2^31 to 2^63-1 would be Atoi range errors, stopping the line with the table partly filled, where the model reaches the index panic.
- `Units.ParseInt`: the text of `strconv.NumError` (its quoting and "invalid syntax" wording) is not modelled. Only the input and the kind of error are kept.
- `Units.ParseUint`: Go detects overflow of `n*base + d` by comparing the wrapped sum. The model compares exact arithmetic against 2^64-1, which agrees below the cutoff.
- strconv and strings are Go's standard library and are not part of this model's sources. Their behaviour is modelled from their documented semantics.
- pkg/iface/iface.go and pkg/reader/offsetFormatters/base/iface.go: declarations only, used as signatures.
- The vendored option parser and the packaging tools: not part of heksa's formatting logic.

## Findings

| source | as written | input that shows it | evidently intended | confidence | as-written member | corrected member |
|---|---|---|---|---|---|---|
| display/funcs.go:11-13 | `nearest` computes `(w + 7) & ^(w - 1)` in uint8, which rounds correctly only up to 16 | w = 17 gives 8, narrower than the 17 bits asked for; w = 0 gives 0 | the comment's "and so on": the smallest width that holds w, 32 for w = 17, as pkg/display/funcs.go and its test table give | high; not executed | `BitTrick.Nearest` (exhibited by `BitTrick.Seventeen`) | `LegacyDisplay.Nearest` (proved smallest by its contract and `LegacyDisplay.NearestIsSmallest`) |
