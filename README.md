# uniblock in Dafny

A model of the text transform at the heart of `uniblock`. The program turns
the Unicode Character Database file `Blocks.txt` into an Emacs Lisp file. The
file has one `defconst` per Unicode block. In the model:

- `Uniblock.ParseLine` is `parse_line`. It recognises a data line of
  `Blocks.txt` (`0000..007F; Basic Latin`) by the regular expression
  `^([0-9A-F]+)\.\.([0-9A-F]+); (.*)$`. The regex is written by hand as
  `Captures`. Both bounds are read with `u32::from_str_radix(_, 16)`, which
  is `Hex.FromHexU32`. Any other line gives `None`.
- `Uniblock.ToElisp` is `UnicodeBlock::to_elisp`. It renders
  `(defconst unicode-block-<id> '(#x<start> . #x<end>))`. Here `<id>` is the
  name with spaces replaced by `-` and lower-cased (`Ascii.Identifier`). The
  bounds are printed by `{:x}` (`Hex.ToHex`).
- `Generator.Generate` is the `for` loop of `main`. It prints one definition
  per line that parses, in document order, then `"\n(provide 'unicode-block)"`.
  The model collects the printed lines into a sequence. `Generator.Document` is
  the pure specification that `Generate` is proved against.

As partners for the proofs, the model adds an inverse reader for a rendered
line (`Uniblock.ReadDefinition`), a declarative statement of the regex's
language (`Uniblock.IsBlockLine`, `MatchesBlockLine`) and the positions of the
accepted lines (`Generator.AcceptedIndices`).

Integers are unbounded. The 32-bit bound of `u32` is explicit: `Hex.uint32`
and `Hex.U32_MAX`. A hex group whose value exceeds `0xFFFFFFFF` makes
`from_str_radix` fail, and then the whole line is `None`.

What the code does and does not do:

- The program emits no aggregate `unicode-blocks` list and appends no footer
  file. After the definitions it prints an empty line and
  `(provide 'unicode-block)`.
- `start <= end` is not checked, so a reversed range parses.
- The name may be empty, because `(.*)` matches the empty string.

## Model

| member | source | states |
|---|---|---|
| `Hex.ToHex` | src/main.rs:32-35 | `{:x}` output is canonical: lower-case `0-9a-f`, no prefix, no leading zero except `"0"`. Decoding it as base 16 gives back the number. |
| `Hex.FromHexU32` | src/main.rs:65-66 | `u32::from_str_radix(_, 16)`: a non-empty digit string of either case whose value is at most `0xFFFFFFFF` gives `Some` of that value, anything else `None`. Its contract is carried by `FromHexU32OfToHex` and `Uniblock.ParseLineOverflow`. |
| `Hex.ToHexOfHexValue` | src/main.rs:32-35 | Encoding inverts decoding on canonical numerals: `ToHex(HexValue(s)) == s`. |
| `Hex.FromHexU32OfToHex` | src/main.rs:65-66 | `from_str_radix(_, 16)` reads the `{:x}` text of any `u32` back to the same value. |
| `Hex.ToHexInjective` | src/main.rs:34-35 | Two numbers print the same hex exactly when they are equal. |
| `Hex.HexValuePositive` | src/main.rs:65-66 | A digit string whose first digit is non-zero has a positive value. |
| `Ascii.ReplaceSpaces` | src/main.rs:33 | `name.replace(" ", "-")`: each space becomes one hyphen, every other character is kept. Its contract is carried by `IdentifierAt`. |
| `Ascii.ToLower` | src/main.rs:33 | `to_lowercase()` on ASCII text: `A`-`Z` become `a`-`z`. Its contract is carried by `IdentifierAt`. |
| `Ascii.Identifier` | src/main.rs:33 | The constant's suffix: spaces replaced, then lower-cased. Its contract is carried by `IdentifierAt`, `IdentifierIdempotent` and `IdentifierOfNormalName`. |
| `Ascii.IdentifierAt` | src/main.rs:33 | The identifier has the name's length. Each space becomes one `-` at the same position. Every other character is only lower-cased. No space and no upper-case letter remain. |
| `Ascii.IdentifierIdempotent` | src/main.rs:33 | Normalising an identifier a second time changes nothing. |
| `Ascii.IdentifierOfNormalName` | src/main.rs:33 | A name already lower-case with no spaces is its own identifier. |
| `Uniblock.HexRunLength` | src/main.rs:59 | The length of the maximal `[0-9A-F]` run at the front of the text: every character before it is a digit and the next one is not. |
| `Uniblock.Captures` | src/main.rs:59-61 | A match splits the line as `a + ".." + b + "; " + name`, with `a` and `b` non-empty `[0-9A-F]` runs and no line feed in `name`. |
| `Uniblock.CapturesAfterDots` | src/main.rs:59 | The second group and the name split the text after `..` as `b + "; " + name`. |
| `Uniblock.CapturesComplete` | src/main.rs:59-61 | Every split of a line into the regex's parts is exactly the capture found. |
| `Uniblock.ParseLine` | src/main.rs:57-70 | `parse_line`: a line matching the regex whose two bounds fit in `u32` gives `Some` block with the third group as name; any other line gives `None`. Its contract is carried by `ParseLineComplete`, `ParseLineSound` and `ParseLineRejects`. |
| `Uniblock.ParseLineComplete` | src/main.rs:57-70 | A line in the regex's language parses exactly when both bounds are at most `0xFFFFFFFF`. Then the block's name is the rest of the line verbatim and its range is the two hex values. |
| `Uniblock.ParseLineSound` | src/main.rs:57-70 | An accepted line is in the regex's language. Its name is the text after the first `"; "` and its range is the values of the two hex runs. |
| `Uniblock.ParseLineRejects` | src/main.rs:61 | A line outside the regex's language gives `None`, with no failure. |
| `Uniblock.ParseLineNeedsLeadingDigit` | src/main.rs:59 | A line that is empty or starts with anything but `[0-9A-F]` gives `None`. This covers blank lines, `#` comments and leading whitespace. |
| `Uniblock.ParseLineNeedsDoubleDot` | src/main.rs:59 | If the first hex run is not followed by `..`, the result is `None`. This covers a single `.` and a `0x` prefix. |
| `Uniblock.ParseLineNeedsSeparator` | src/main.rs:59 | If the second hex run is not followed by `"; "`, the result is `None`. This covers `;` without its space and lower-case digits. |
| `Uniblock.ParseLineOverflow` | src/main.rs:65-66 | A bound over `0xFFFFFFFF` makes the whole line `None`. |
| `Uniblock.ParseBasicLatin` | src/main.rs:57-70 | `0000..007F; Basic Latin` parses to `{name: "Basic Latin", range: (0, 127)}`. Leading zeros are accepted. |
| `Uniblock.ParseReversedRange` | src/main.rs:64-67 | `007F..0000; X` parses to range `(127, 0)`, because order is not checked. |
| `Uniblock.ParseEmptyName` | src/main.rs:63 | `0000..007F; ` parses with an empty name. |
| `Uniblock.RejectLowerCaseDigits` | src/main.rs:59 | `0000..007f; Basic Latin` gives `None`. |
| `Uniblock.RejectHexPrefix` | src/main.rs:59 | `0x0000..0x007F; Basic Latin` gives `None`. |
| `Uniblock.RejectSingleDot` | src/main.rs:59 | `0000.007F; Basic Latin` gives `None`. |
| `Uniblock.RejectSemicolonWithoutSpace` | src/main.rs:59 | `0000..007F;Basic Latin` gives `None`. |
| `Uniblock.RejectNonDataLines` | src/main.rs:59 | A leading space, a `#` comment and an empty line each give `None`. |
| `Uniblock.ToElisp` | src/main.rs:30-37 | `to_elisp`: `(defconst unicode-block-<id> '(#x<start> . #x<end>))` with the identifier and both bounds in `{:x}` form. Its contract is carried by `ReadDefinitionOfToElisp` and `ToElispSameLine`. |
| `Uniblock.ReadDefinitionOfToElisp` | src/main.rs:30-37 | Round trip of `to_elisp`: the rendered line reads back as the block's identifier and both bounds. So the first `#x` literal denotes `range.0` and the second `range.1`, exactly. |
| `Uniblock.ToElispSameLine` | src/main.rs:30-37 | Two blocks render the same line exactly when their identifiers and ranges agree. |
| `Uniblock.ToElispExample` | src/main.rs:30-37 | The block `Basic Latin` `(0, 127)` renders as `(defconst unicode-block-basic-latin '(#x0 . #x7f))`. |
| `Uniblock.IdentifierExample` | src/main.rs:33 | `Latin-1 Supplement` becomes `latin-1-supplement`. |
| `Generator.Blocks` | src/main.rs:44-47 | The blocks of the lines that parse, in document order. Its contract is carried by `AcceptedIndicesSource`, `AcceptedIndicesComplete` and `BlocksAppend`. |
| `Generator.Document` | src/main.rs:44-49 | Everything `main` prints: the definitions of `Blocks`, then `""` and `(provide 'unicode-block)`. Its contract is carried by `DocumentShape` and `Generate`. |
| `Generator.Generate` | src/main.rs:44-49 | The loop prints exactly `Document(lines)`: the definition of each accepted line in order, then `""` and `(provide 'unicode-block)`. |
| `Generator.BlocksAppend` | src/main.rs:44-48 | Filtering distributes over concatenation. Each part keeps its blocks, in order. |
| `Generator.BlocksOfLine` | src/main.rs:45-47 | One line contributes its block when it parses, and nothing otherwise. |
| `Generator.DocumentIgnoresRejectedLine` | src/main.rs:44-49 | Inserting or removing a line that does not parse leaves the output unchanged. |
| `Generator.AcceptedIndicesSource` | src/main.rs:44-47 | The `k`-th definition comes from the `k`-th accepted input line. |
| `Generator.AcceptedIndicesIncreasing` | src/main.rs:44-47 | Accepted positions strictly increase, so document order is kept. |
| `Generator.AcceptedIndicesComplete` | src/main.rs:44-47 | Every line that parses is among the accepted positions. |
| `Generator.DefinitionCountBound` | src/main.rs:44-47 | There are never more definition lines than input lines. |
| `Generator.DefinitionCountAllAccepted` | src/main.rs:44-47 | When every line parses, there is one definition line per input line. |
| `Generator.DefinitionCountRejected` | src/main.rs:44-47 | Any line that does not parse means fewer definitions than input lines. |
| `Generator.DocumentOfNoData` | src/main.rs:44-49 | Input with only comments and blank lines yields just `""` and `(provide 'unicode-block)`. |
| `Generator.DocumentShape` | src/main.rs:44-49 | The output has `|Blocks| + 2` lines and ends with `""` and `(provide 'unicode-block)`. Each earlier line reads back as its block's identifier and range. |
| `Generator.DocumentExample` | src/main.rs:44-49 | A header comment followed by `0000..007F; Basic Latin` gives the Basic Latin definition, `""` and `(provide 'unicode-block)`. |

## Left out

- `get_unicode_blocks`, the HTTP request to unicode.org, its status check and `HttpError` (src/main.rs:17-21, 72-82): network I/O through a library. The model starts from the lines of a fetched document.
- The commented-out local-file reader (src/main.rs:84-87): it is not compiled.
- The error branch of `main`, which prints the fetch error (src/main.rs:51-53): I/O only.
- `println!`: the model returns the printed lines as a sequence instead of writing to standard output. Output streaming and partial output after a failure are not modelled.
- `BufReader::lines` and `line.unwrap()` (src/main.rs:43-45): reading, UTF-8 decoding, the panic on a read error, and stripping `\n` or `\r\n` are I/O. The model takes the lines as given.
- `lazy_static` compilation of the regex and the regex engine itself (src/main.rs:58-60): the model states the regex's language directly.
- Ascii.ToLower: models `to_lowercase` for ASCII only. It maps `A`-`Z` to `a`-`z` and leaves every other character unchanged. Rust's full Unicode case mapping, including characters whose lower case is longer, is a library table and is not modelled. Block names in `Blocks.txt` are ASCII.
- Hex.FromHexU32: models `from_str_radix` only on digit strings. The `+` sign prefix that `from_str_radix` also accepts is not modelled, because the regex never passes a sign.
- An aggregate list of identifiers, a footer file, and detection of identifier collisions or escaping: the code does none of these.
