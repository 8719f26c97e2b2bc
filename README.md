# xdd hex dump, modelled in Dafny

`xdd` prints a file as a hex dump. It reads the file into a buffer of `cols`
bytes, one read at a time. After every read that returns at least one byte it
prints one line: the hex column, `" | "`, the character column and a line
break. Both columns are rendered from the whole buffer.

- **Hex column** (`print_hex`). Each byte becomes two zero-padded hex digits,
  lower case by default and upper case with `-u`. With `--split N`, a single
  space goes before byte `i` when `i != 0` and `i % N == 0`.
- **Character column** (`print_ascii`). Each byte becomes the character with
  the same code point. A newline byte instead prints a line break, a dot
  placeholder and `" | "`.

The model has four modules:

- `Prelude` (`prelude.dfy`): the byte type `uint8`, `Option`, and `Dots(k)`,
  which is `"..".repeat(k)`.
- `HexColumn` (`hex.dfy`): `PrintHex` and the function `HexRun` that specifies
  it. Also the dead dot fill, a decoder for the column, and the lemmas about
  layout, grouping, case and the round trip.
- `AsciiColumn` (`ascii.dfy`): `PrintAscii`, `PrintGlyph` and `PrintPlaceholder`, with
  the function `AsciiRun` that specifies them and the placeholder lemmas.
- `Driver` (`driver.dfy`): the loop of `main`. The buffer is an `array` that
  is allocated once and overwritten in place by every read. Its lemmas cover
  the buffer states that get printed.

Each `print!` is modelled as appending to an output `seq<char>`. Every method
takes the output so far and returns it extended. Its `ensures` ties the new
output to a specification function, and the lemmas state the properties of
those functions.

Where the code and the program's stated intent differ, the model follows the
code:

- **No dot fill at end of file.** `print_hex` sets `chunk_size` to the
  chunk's own length (src/main.rs:5), so the early return at line 19 always
  happens and the fill at lines 23-25 never runs. The model keeps the fill as
  `HexFill` and proves it empty on every call.
- **Stale bytes after a short read.** `main` passes the whole `cols`-byte
  buffer to both formatters, not just the `s` bytes that were read. After a
  short final read, the line therefore repeats bytes left over from the
  previous read (`LineShowsStaleBytes`, `TwentyByteFile`).
- **`--cols` range.** `cols` is a `u8`, so it ranges over 0-255, not 1-256.
  With `cols == 0` every read returns nothing and nothing is printed
  (`NoColumnsNoOutput`).
- **Character column.** It has no grouping spaces and escapes nothing. Bytes
  of 128 and above print as the character with that code point.
- **Placeholder width.** The placeholder is `size / split` whole groups, so
  it is narrower than the hex column whenever the last group is partial
  (`PlaceholderWidth`).
- **`--len`.** It is parsed but never read, so it truncates nothing.

Division by zero cannot happen: the verifier checks every `%` and `/` by
`split` against its guard (`Sep`, `PrintHex`, `Placeholder`, `PrintPlaceholder`).

## Model

| member | source | states |
|---|---|---|
| `HexColumn.PrintHex` | src/main.rs:4-26 | the loop appends exactly `HexRun(chunk)`, and the fill after it adds nothing |
| `HexColumn.HexFill` | src/main.rs:19-25 | the fill is non-empty iff the byte count is below the nominal chunk size; it is then `2 * (chunkSize - count)` dots |
| `HexColumn.HexFillDead` | src/main.rs:5-21 | with `chunk_size` equal to the chunk's own length, the fill is empty |
| `HexColumn.ByteHexDigits` | src/main.rs:7-9 | each byte is printed as exactly two hex digits, with no space and no dot |
| `HexColumn.UnspacedHexRun` | src/main.rs:12-17 | deleting the separators leaves each byte's two digits, in input order |
| `HexColumn.DecodeDigits` | src/main.rs:7-9 | decoding the digits two at a time, high nibble first, gives back the bytes |
| `HexColumn.HexRoundTrip` | src/main.rs:4-17 | deleting the spaces from the column and decoding the digits gives back the chunk, for every grouping and either case |
| `HexColumn.HexRunLayout` | src/main.rs:12-17 | the column is `2L` hex digits plus `SepCount(L, split)` spaces (`(L-1)/split` for `L > 0` and `split > 0`, else 0), and nothing else |
| `HexColumn.HexRunUngrouped` | src/main.rs:13-14 | with `split == 0` there are no spaces, and the column is the bare digits |
| `HexColumn.SepCountGroups` | src/main.rs:13-14 | for `L > 0` and `split > 0`, the number of spaces is the number of groups (`ceil(L/split)`) minus one |
| `HexColumn.NextQuotient` | src/main.rs:13 | byte `n` starts a group exactly when `n / split` goes up by one from `n - 1` |
| `HexColumn.UpperCaseIsMapped` | src/main.rs:6-10 | the upper-case column is the lower-case column with `a`-`f` mapped to `A`-`F`; digits and spaces are unchanged |
| `AsciiColumn.PrintAscii` | src/main.rs:28-52 | the loop appends exactly `AsciiText(chunk, split)`: one glyph per byte, every newline glyph carrying the placeholder for the chunk's own length |
| `AsciiColumn.PrintGlyph` | src/main.rs:31-50 | one byte appends its own character, or for a newline byte a line break, the placeholder and the column delimiter |
| `AsciiColumn.PrintPlaceholder` | src/main.rs:35-45 | appends exactly `Placeholder(size, split)`: `size / split` blocks when grouping, `2 * size` dots otherwise |
| `AsciiColumn.BlocksLength` | src/main.rs:36-42 | `m` blocks take `m * 2 * split` dots plus `m - 1` separating spaces |
| `AsciiColumn.BlocksChars` | src/main.rs:36-42 | `m` blocks hold exactly `m - 1` spaces, and no character other than dots and spaces |
| `AsciiColumn.PlaceholderLayout` | src/main.rs:35-45 | the placeholder is `2 * size` dots when `split == 0`; otherwise `n * 2 * split + max(n - 1, 0)` characters with `n = size / split`; it is empty when `split > size`; it holds only dots and spaces |
| `AsciiColumn.PlaceholderWidth` | src/main.rs:35-45 | the placeholder is never wider than the hex column of the same chunk, and it is equally wide iff `split == 0` or `split` divides the chunk length |
| `AsciiColumn.GroupedWidths` | src/main.rs:36-42 | the arithmetic behind `PlaceholderWidth`: `n` whole groups against `2L + (L-1)/split` |
| `AsciiColumn.PlainBytes` | src/main.rs:48-50 | a chunk with no newline byte prints one character per byte, with code point equal to the byte value (bytes of 128 and above too), so no grouping space is inserted |
| `AsciiColumn.GlyphNewlines` | src/main.rs:31-50 | a newline byte prints exactly one line break; any other byte prints none |
| `AsciiColumn.NewlineCount` | src/main.rs:30-51 | the column has as many line breaks as the chunk has `0x0A` bytes |
| `AsciiColumn.AsciiRunLength` | src/main.rs:29-51 | the column is one character per byte, plus three plus the placeholder length for each newline byte |
| `Driver.ReadInto` | src/main.rs:85 | a read of `s` bytes overwrites `buf[0..s]` in place and leaves `buf[s..]` as it was |
| `Driver.PrintLine` | src/main.rs:89-94 | one loop round appends the hex column of the whole buffer, the column delimiter (space, bar, space), the character column of the whole buffer and `"\n"` |
| `Driver.BuffersStep` | src/main.rs:85-88 | a read of zero bytes leaves nothing more to show; any other read shows the refilled buffer next and goes on with the later reads |
| `Driver.Run` | src/main.rs:83-95 | the loop, with a buffer of `cols` zero bytes refilled by each read, prints exactly `Dump(cols, split, upper, results)` |
| `Driver.BuffersShape` | src/main.rs:83-92 | one line per read up to the first read of zero bytes; line `i` shows read `i`'s bytes first, then what the buffer held before that read |
| `Driver.LineHexWidth` | src/main.rs:83-89 | every line's hex column covers a full buffer of `cols` bytes, whatever its read returned, and holds no dot |
| `Driver.LineShowsStaleBytes` | src/main.rs:83-89 | line `i > 0` decodes to read `i`'s bytes followed by the previous line's bytes beyond them |
| `Driver.BuffersStopAtEmptyRead` | src/main.rs:84-88 | after a read of zero bytes, no later read is looked at |
| `Driver.DumpStopsAtEmptyRead` | src/main.rs:84-88 | the output is decided by the reads before the first read of zero bytes |
| `Driver.NoColumnsNoOutput` | src/main.rs:83-88 | with `cols == 0` nothing is printed |
| `Driver.TwentyByteFile` | src/main.rs:83-94 | a 20-byte file read with 16 columns prints two lines; the second shows bytes 16-19 and then bytes 4-15 again, with no dot fill |

## Left out

- Argument parsing with `clap` (src/main.rs:54-74, 77) is not modelled. `cols` is a `uint8` parameter, matching the range `clap` enforces for a `u8`; `split` and the `-u` flag are parameters too.
- Opening and reading the file (src/main.rs:80-81, 85) is not modelled, and neither are the `expect` panics on failure. What each `File::read` returns is a parameter (`results`). Each result is at most `cols` bytes, since a read never returns more than its buffer holds. Running out of results counts as end of file.
- The `--len` option (src/main.rs:67-69) is parsed but never used, so nothing is modelled for it.
- Stdout buffering, and the UTF-8 encoding of characters of 128 and above when written, are not modelled. The output is a `seq<char>`.
- Idempotence of the formatters is not stated as a lemma. They are specified by functions, so equal inputs give equal output by construction.
