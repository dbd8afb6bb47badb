# Hex fingerprints and connection-matrix images, modelled in Dafny

This project models two small data-preparation scripts from a
cheminformatics repository.

- **The hexadecimal-to-binary encoder** (`hex_to_binary.py`, module
  `HexToBinary` in `hex_to_binary.dfy`):
  - `convert` turns a line of lowercase hex digits into a string of
    `'0'`/`'1'` characters, four per digit. Tabs and any other characters
    add nothing.
  - `readFile` takes the lines of a fingerprint file and pops the empty
    lines in place. It removes every tab from each line that ends in a tab.
    Then it converts every line.
- **The connection-matrix painter** (`cmap.py`, module `ConnectionMap` in
  `cmap.dfy`):
  - It fills a 150 x 150 x 3 `uint8` buffer with white.
  - It then walks the `len(mt)` x `len(mt)` square of an integer matrix.
    Each cell whose code is in the palette gets its pixel set to that
    code's colour, with all three channels written.

`wrappers.dfy` holds the `Option` type that both modules share.

The loops of the original are methods proved against specification
functions:
- `Convert` against `HexBits`;
- `RemoveEmptyLines` against `NonEmpty`;
- `StripTrailingTabs` against `StripLine`;
- `Paint` against `PaintedOver`.

The properties the scripts rely on are lemmas about those functions.

For the encoder, the digit table is checked against an independent
definition: the 4-bit big-endian numeral of the digit's value. A decoder
is also defined, and the two round trips between it and `convert` are
proved.

For the painter, the palette is shown to be injective and never white
apart from code 0. So the finished image determines which listed non-zero
code sits in each cell of the square.

## Model

| member | source | states |
|---|---|---|
| HexToBinary.Nibble | hex_to_binary.py:7-44 | The table of `convert`: each lowercase hex digit contributes a 4-character group. A tab or any other character contributes nothing. |
| HexToBinary.HexBits | hex_to_binary.py:3-46 | The output of `convert` as a value: the contributions of the line's characters, appended in order. It is at most four characters per input character. |
| HexToBinary.Convert | hex_to_binary.py:3-46 | The loop's output is the concatenation, in input order, of each character's contribution. A lowercase hex digit contributes its table group. A tab or any other character contributes nothing. |
| HexToBinary.NibbleBigEndian | hex_to_binary.py:7-38 | The group for each of the sixteen digits is the 4-character big-endian binary numeral of the digit's value. |
| HexToBinary.NibbleOutside | hex_to_binary.py:39-44 | A character that is not a lowercase hex digit adds nothing to the output. This includes the tab, upper-case letters and the "Invalid key" case. |
| HexToBinary.HexBitsShape | hex_to_binary.py:6-38 | The output consists only of '0' and '1' characters. Its length is four times the number of hex digits in the line. |
| HexToBinary.HexBitsAppend | hex_to_binary.py:6-46 | Converting a concatenation gives the concatenation of the two conversions. |
| HexToBinary.HexBitsIgnoresOthers | hex_to_binary.py:39-44 | A line converts exactly as its subsequence of hex digits does. |
| HexToBinary.ToBinaryIsBinary | hex_to_binary.py:7-38 | Every fixed-width numeral, which the table groups are, contains only '0' and '1'. |
| HexToBinary.BinaryValueOfToBinary | hex_to_binary.py:7-38 | A numeral of the given width reads back as the value it was written from. |
| HexToBinary.ToBinaryOfBinaryValue | hex_to_binary.py:7-38 | Rewriting a binary string's value at its own width gives back the same string, leading zeros included. |
| HexToBinary.HexOnlyAllHex | hex_to_binary.py:7-38 | Every character kept by the digit filter is one that the table handles. |
| HexToBinary.GroupDigitOfNibble | hex_to_binary.py:7-38 | Decoding a digit's group gives back the digit. |
| HexToBinary.NibbleOfGroupDigit | hex_to_binary.py:7-38 | A 4-character group that decodes to a digit is exactly that digit's table entry. |
| HexToBinary.DecodeAllHex | hex_to_binary.py:7-38 | Only lowercase hex digits come out of decoding. |
| HexToBinary.DecodeHexBits | hex_to_binary.py:3-46 | For a line made only of hex digits, decoding the output in groups of four gives back the line. |
| HexToBinary.HexBitsOfDecode | hex_to_binary.py:3-46 | Any binary string that decodes to a line is exactly what that line converts to. The encoding is therefore injective on hex lines. |
| HexToBinary.NonEmpty | hex_to_binary.py:67-72 | The lines the pop loop keeps: every line of the result is non-empty, and there are no more of them than input lines. |
| HexToBinary.RemoveEmptyLines | hex_to_binary.py:67-72 | Popping empty lines in place leaves the non-empty lines in their original order. |
| HexToBinary.NonEmptyPop | hex_to_binary.py:69-70 | Popping an empty line at any index does not change which non-empty lines remain, nor their order. |
| HexToBinary.NonEmptyAppend | hex_to_binary.py:67-72 | Dropping empty lines works line by line: filtering a concatenation gives the concatenation of the two filtered parts. |
| HexToBinary.NonEmptyMembers | hex_to_binary.py:67-72 | A line survives exactly when it was in the input and is not empty. |
| HexToBinary.NonEmptyIdentity | hex_to_binary.py:67-72 | A list with no empty line is left unchanged. |
| HexToBinary.RemoveTabs | hex_to_binary.py:81 | `replace("\t", "")`: the result has no tab and is no longer than the line. |
| HexToBinary.RemoveTabsChar | hex_to_binary.py:81 | On a single character, `replace("\t", "")` drops a tab and keeps anything else. |
| HexToBinary.RemoveTabsAppend | hex_to_binary.py:81 | Tab removal distributes over concatenation. With the one-character lemma, this means every non-tab character is kept, in order. |
| HexToBinary.RemoveTabsChanges | hex_to_binary.py:81 | `replace("\t", "")` shortens a line that contains a tab. It leaves a tab-free line unchanged. |
| HexToBinary.HexOnlyRemoveTabs | hex_to_binary.py:81 | Removing tabs keeps every hex digit, in order. |
| HexToBinary.HexBitsRemoveTabs | hex_to_binary.py:81 | Removing tabs does not change what a line converts to. |
| HexToBinary.StripLine | hex_to_binary.py:80-83 | A line ending in a tab comes out as the line with its tabs removed, which is shorter and has no tab at all. Any other line comes out unchanged, inner tabs included. |
| HexToBinary.StripLineHexBits | hex_to_binary.py:78-87 | The tab stripping never changes a line's conversion. |
| HexToBinary.StripTrailingTabs | hex_to_binary.py:78-83 | `alist2` has one entry per line, in order, each the stripped line. |
| HexToBinary.ConvertLines | hex_to_binary.py:85-87 | `alist3` has one entry per line, in order, each that line's conversion. |
| HexToBinary.ReadFile | hex_to_binary.py:50-89 | The result has exactly one entry per non-empty input line, in order. Each entry is the conversion of the cleaned line, and hence of the original line. |
| ConnectionMap.Palette | cmap.py:20-79 | The if/elif dispatch: a code has a colour exactly when it is one of the fifteen listed codes. |
| ConnectionMap.PaletteDistinguishes | cmap.py:20-79 | Different listed codes get different colours. Only code 0 is painted white. |
| ConnectionMap.PaintedOver | cmap.py:18-79 | A pixel outside the square keeps its previous value. A pixel that changes takes the colour of its cell's code. A cell with a listed code always gives its pixel that code's colour. |
| ConnectionMap.Rendered | cmap.py:10-79 | The finished pixel of one pass is white outside the square and for an unlisted code. A listed code gives its colour. |
| ConnectionMap.RenderedWhite | cmap.py:10-79 | A pixel of the finished image is white exactly when it is outside the square, its cell's code is unlisted, or its cell's code is 0. |
| ConnectionMap.RenderedRecoversCode | cmap.py:18-79 | A non-white pixel in some listed code's colour lies inside the square, and its cell holds that code. |
| ConnectionMap.SetPixel | cmap.py:21-23 | The three channel stores set one pixel to the given colour. No other pixel changes. |
| ConnectionMap.NewWhiteImage | cmap.py:10-15 | The new buffer is 150 x 150 x 3 with every pixel white. |
| ConnectionMap.Paint | cmap.py:18-79 | Inside the square, a pixel whose cell has a listed code takes that code's colour. Every other pixel keeps its previous value. |
| ConnectionMap.Render | cmap.py:10-79 | A newly allocated image in which each pixel is the painted-over-white colour of its cell. |

## Left out

- Reading the fingerprint file (`open`, `read().splitlines()`) is not modelled. `ReadFile` starts from the list of lines.
- The file path constants are not modelled.
- The two `print(len(alist))` diagnostics and the "Invalid key" message are not modelled. They do not affect the result.
- The CSV writing in the `__main__` block is not modelled.
- `StripLine` and `StripTrailingTabs` require non-empty lines. The original reads `string[len(string)-1]`, which raises on an empty string. `ReadFile` always meets this requirement because empty lines are removed first.
- `Convert` has no counterpart of the `elif(str[i] == '')` branch. A single character never equals the empty string, so that branch is never taken.
- The painter's outer loop over the files `1.txt` to `79.txt` is not modelled. `Render` is one pass of that loop's body.
- Parsing each matrix with `genfromtxt` is not modelled.
- Writing the image with `cv2.imwrite` is not modelled.
- Matrix cells are modelled as integers, but `genfromtxt` produces floats. A non-integral or missing (NaN) cell equals no listed code, so it behaves like an unlisted integer code and leaves its pixel as it is.
- `Paint` and `Render` require every row to be at least as long as the number of rows. The original raises IndexError on a shorter row.
- `Paint` and `Render` also require that no cell of the square outside the 150 x 150 image holds a listed code. The original writes to the buffer only for a listed code, and raises IndexError as soon as it writes outside the image. A larger matrix whose extra cells hold only unlisted codes is accepted, and is painted where it overlaps the image.
- The capsule-network classifier is not part of this model.
- The script that prepares the matrices is not part of this model.
- The script that draws images from the connection matrix is not part of this model.
