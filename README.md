# Entombed maze automaton in Dafny

`entombed.py` draws mazes in the style of the Atari 2600 game *Entombed*.
Each new row comes from the previous row by a one-dimensional cellular
automaton. A cell's value is looked up in a 32-entry rule table, keyed by a
5-bit code of its neighbourhood:

- two cells already decided to its left in the new row (`a`, `b`);
- the cells above-left, above and above-right in the previous row (`c`, `d`, `e`).

An entry is `NO_WALL` (0), `WALL` (1) or `RANDOM_CHOICE` (2). A
`RANDOM_CHOICE` entry means the cell is a fresh random bit.

This project models the automaton and what surrounds it:

- the default rule table and the neighbourhood code (`Rules`, `rules.dfy`);
- `generate_row`, as a method that fills an array left to right (`RowGenerator`, `generator.dfy`);
- the driver loop that grows a maze row by row (`MazeDriver`, `maze.dfy`);
- the text form of a rule table, `lut_to_str` and `lut_from_str` (`TableText`, `tabletext.dfy`);
- the expansion of the saved maze into image pixels (`ImageExpansion`, `image.dfy`).

`results.dfy` holds the `Result` type that stands for the two Python
exceptions the core can raise: `IndexError` from a rule table that is too
short, and `ValueError` from `int()`. `arith.dfy` holds three arithmetic
helper lemmas.

Conventions of the model:

- The random bits `randombit()` returns are a parameter `src: nat -> Bit`. The k-th draw of a run is `src(k)`, and a cursor counts the draws made so far. `generate_row` and the driver take the cursor in and give it back advanced.
- The global `lut` is a parameter of every operation that reads it.
- A table is a `seq<int>`, because a table read from the command line is never checked. The operations that index it fail with `IndexError(idx)` when the code `idx` is past its end, as Python does.
- The row generator requires every entry to be 0, 1 or 2 (see "Left out").
- Python's `range(n)` runs no iterations for a negative `n`. `MazeDriver.Count` models this for the column count, the row count and `output_scale`.

Three behaviours of the code that the model keeps:

- The `--rules` help text (entombed.py:381-385) asks for an array of 32 items, each 0, 1 or 2. `lut_from_str` checks neither the number of items nor their values, and neither does `TableText.LutFromStr` (`TableText.LutFromStrLength`).
- A column count of zero or less gives an empty initial row, because `range(columns)` runs no iterations. `MazeDriver.InitialRow` does the same.
- The default value that the `--rules` help prints (entombed.py:394) does not parse back: `lut_to_str` leaves a trailing comma (see "Findings").

## Model

| member | source | states |
|---|---|---|
| Rules.DefaultLutShape | entombed.py:140-156 | the default table has exactly 32 entries, each NO_WALL, WALL or RANDOM_CHOICE |
| Rules.GetIdx | entombed.py:199-200 | the code of five bits is an index below 32 |
| Rules.GetIdxIsWeightedSum | entombed.py:199-200 | the code is a + 2b + 4c + 8d + 16e |
| Rules.GetIdxIsBitwiseOr | entombed.py:199-200 | the code equals the OR of the bits shifted left by 0..4, computed on 5-bit vectors as the source writes it |
| Rules.GetIdxInjective | entombed.py:199-200 | two neighbourhoods with the same code are the same neighbourhood |
| Rules.DecodeIdx | entombed.py:254-267 | the five decoded bits are a neighbourhood whose code is the index's low five bits, `idx` mod 32, for every index, including those of a table longer than 32 |
| Rules.DecodeIdxIsMaskShift | entombed.py:254-267 | for an index below 32 the decoding is `(idx & 2^k) >> k` for k = 0..4, as `print_rules` computes it |
| Rules.DecodeGetIdx | entombed.py:254-267 | decoding the code of five bits gives the five bits back |
| Rules.GetIdxDecode | entombed.py:254-267 | every index below 32 is the code of its own decoding, so the two maps are inverse on 0..31 |
| RowGenerator.GenerateRow | entombed.py:202-235 | the buffer loop returns what the row specification `NextRow` gives. On success the row has the input's length, every cell follows the rule and the cursor has advanced by the number of RANDOM_CHOICE hits. A table of at least 32 entries never fails; a shorter one fails with the IndexError of the first code past its end |
| RowGenerator.CellIndex | entombed.py:205-228 | the code of cell i uses the edge rules: a = 0 for i < 2, b = c = 0 at i = 0, e = 0 at the last cell. Every read of the new row or the previous row is in range, and the code is below 32 |
| RowGenerator.RowPrefix | entombed.py:205-233 | the first n cells, when they generate, are n cells drawing at most n bits |
| RowGenerator.RowResult | entombed.py:202-235 | the next row has the input's length and follows the cell-by-cell rule, and it always exists for a table of at least 32 entries |
| RowGenerator.GeneratedIff | entombed.py:228-233 | the loop produces (out, cursor) exactly when every cell is the table entry of its neighbourhood, or the next unused bit for a RANDOM_CHOICE entry, and the cursor is the start plus the number of RANDOM_CHOICE hits (both directions) |
| RowGenerator.ReferenceRowUnique | entombed.py:228-233 | the rule determines the row and the bits it draws: two full rows that follow it are equal |
| RowGenerator.ErrorPersists | entombed.py:228-231 | once a cell's code is past the table's end, the whole row fails with that error |
| RowGenerator.FullTableNeverFails | entombed.py:228-231 | with at least 32 entries every prefix of the row generates |
| RowGenerator.UniformTableRow | entombed.py:231-233 | with an all-WALL table the row is all walls, and with an all-NO_WALL table it is all open, whatever the previous row; no bit is drawn |
| RowGenerator.EmptyRowStaysEmpty | entombed.py:231-233 | if entry 0 is NO_WALL, an all-open row is followed by an all-open row and no bit is drawn |
| MazeDriver.InitialRow | entombed.py:415 | the initial row has `columns` cells (none for a non-positive count), and cell k is draw `start + k` |
| MazeDriver.GenerateMaze | entombed.py:414-432 | the driver returns `RunMaze`: the initial row of `columns` drawn bits, then `rows` generations, saved only when an output is set |
| MazeDriver.DriveRows | entombed.py:423-432 | the generation loop keeps the current row, the cursor and the saved rows in step with `Generations`, and it stops with the first row's error |
| MazeDriver.NextGeneration | entombed.py:423-432 | one pass of the loop: a generated row extends the run by one generation, with the row and the cursor `generate_row` returns; a failure is the error of the whole run |
| MazeDriver.Generations | entombed.py:423-432 | k generations give k rows, all as wide as the initial row; the current row is the last one and the cursor never goes back |
| MazeDriver.MazeShape | entombed.py:414-432 | the saved maze starts with the initial row and has `rows` + 1 rows when saving and 1 otherwise, every row `columns` wide |
| MazeDriver.GenerationRow | entombed.py:423-432 | row j of a run is generated by the cell-by-cell rule from row j - 1 (the initial row for j = 0), drawing from the cursor after j generations up to the cursor after j + 1 |
| MazeDriver.MazeRowsFollowRule | entombed.py:415-432 | each saved row after the first is generated from the one before it by the cell-by-cell rule. The draws form one stream read in order: the first generated row starts right after the initial row's `columns` draws, each row starts where the previous one stopped, and the last one stops at the driver's final cursor |
| MazeDriver.MazeDraws | entombed.py:415-424 | the initial row draws `columns` bits and each generated cell at most one more |
| MazeDriver.FullTableMaze | entombed.py:423-432 | a valid table of at least 32 entries drives a maze of any size to completion |
| MazeDriver.DefaultMazeSucceeds | entombed.py:414-432 | with the default table the driver never fails |
| MazeDriver.UniformMaze | entombed.py:414-432 | with an all-WALL or all-NO_WALL table every saved row after the first is uniform |
| TableText.LutToStr | entombed.py:237-241 | `lut_to_str` is each value's text followed by a comma; for a non-empty table that is the comma join plus a trailing comma |
| TableText.SingleDigitLayout | entombed.py:237-241 | for values 0..9 the text is two characters per entry, the digit then a comma |
| TableText.TrailingCommaFails | entombed.py:237-244 | `lut_from_str(lut_to_str(l))` raises ValueError on the empty last field, for every table |
| TableText.WithoutTrailingCommaRoundTrip | entombed.py:237-244 | the text ends in a comma, and without it `lut_from_str` gives the table back, for any values |
| TableText.LutToText | entombed.py:237-244 | the corrected serializer writes the comma join, which `lut_from_str` reads back as the same table |
| TableText.JoinedRoundTrip | entombed.py:243-244 | the comma join of any non-empty table parses back to that table |
| TableText.LutFromStr | entombed.py:243-244 | `lut_from_str` succeeds exactly when `int` accepts every comma-separated field. The table then has one entry per field, each `int` of its field, with no check on the count or the values; otherwise it raises the error of the first field `int` rejects |
| TableText.MapAllOk | entombed.py:244 | `list(map(f, xs))` succeeds exactly when `f` succeeds on every element |
| TableText.MapAllAt | entombed.py:244 | a successful `list(map(f, xs))` has one value per element, in order, each `f` of its element |
| TableText.MapAllFirstError | entombed.py:244 | a failed `list(map(f, xs))` raises the error of the first element `f` rejects, all earlier elements being accepted |
| TableText.LutFromStrLength | entombed.py:243-244 | a parsed table has one entry per comma plus one: no length check |
| TableText.ParseIntRoundTrip | entombed.py:240-244 | `int` of the decimal text `"{}".format(v)` is v, for every integer |
| TableText.ParseIntEmpty | entombed.py:244 | `int("")` raises ValueError |
| TableText.SplitFields | entombed.py:244 | `split(",")` gives one more field than commas, and no field holds a comma |
| TableText.JoinSplit | entombed.py:244 | joining the fields of a split with the separator gives the string back |
| TableText.SplitJoin | entombed.py:244 | splitting a join of separator-free fields gives the fields back |
| TableText.NatToDecimalValue | entombed.py:240 | reading back the decimal digits of n gives n |
| ImageExpansion.ExpandMaze | entombed.py:458-476 | the loops build `Image`: each saved row's pixel row, `output_scale` times over, with the colours taken from `output_fg` and `output_bg` |
| ImageExpansion.ExpandRow | entombed.py:460-474 | one pixel row is the row's cells widened, then the reversed row's cells widened |
| ImageExpansion.ExpandCells | entombed.py:461-467 | appending a row's cells adds `scale` copies of each cell's colour, in order |
| ImageExpansion.AppendCopies | entombed.py:463-464 | a `range(n)` loop of appends adds n copies |
| ImageExpansion.Reversed | entombed.py:468 | `row[::-1]` has the row's length, and element i is element len-1-i |
| ImageExpansion.HexToPixel | entombed.py:455-456 | for every integer colour, the triple's components are bytes, and high to low they recombine to the colour modulo 2^24: the three bytes the masks and shifts pick |
| ImageExpansion.HexToPixelBytes | entombed.py:455-456 | for a colour in 0..0xFFFFFF the triple holds its three bytes, high to low, each below 256 |
| ImageExpansion.PixelRowLength | entombed.py:460-474 | a pixel row built from n cells has 2·n·scale pixels |
| ImageExpansion.PixelRowLeft | entombed.py:461-467 | for j < n·scale, pixel j is the colour of cell j / scale |
| ImageExpansion.PixelRowRight | entombed.py:468-474 | in the second half, pixel j is the colour of cell n-1-t, where t = (j - n·scale) / scale |
| ImageExpansion.PixelRowMirror | entombed.py:460-474 | every pixel row reads the same from both ends: pixel j equals pixel 2·n·scale-1-j |
| ImageExpansion.ImageLength | entombed.py:475-476 | the image has len(saved_maze)·scale pixel rows |
| ImageExpansion.ImageAt | entombed.py:475-476 | image row k is the pixel row of saved row k / scale |
| ImageExpansion.MazeImageShape | entombed.py:414-476 | the image of a saved maze has (rows + 1)·scale pixel rows, each 2·columns·scale pixels wide |

## Left out

- Command-line options and `getopt` handling (entombed.py:31-105, 335-412): configuration plumbing. The values they set are parameters of the model.
- `print_row`, the drawing part of `print_rules` and `hex_to_truecolor` (entombed.py:158-197, 246-294): terminal output. Only the bit decoding of `print_rules` is modelled.
- `probselect` and `probabilities` (entombed.py:296-332): floating-point arithmetic that exact reals would not match.
- `random.choice`: replaced by the bit stream `src`. Which bits it yields is not modelled.
- The numpy/PIL conversion and save (entombed.py:478-482): foreign library calls. The model stops at `output_maze`.
- The `no_maze` switch (entombed.py:414) and the guard of the image block (entombed.py:448): `GenerateMaze` is the branch that runs, and `saving` stands for `output != None`.
- RowGenerator.GenerateRow: requires every table entry to be 0, 1 or 2. With another value the source stores it in the row, and it then feeds the shifts of `get_idx`. The model does not follow such a table.
- ImageExpansion.HexToPixel: writes each mask and shift as a division and remainder by powers of two, which agree with Python's `&` and `>>` for every integer (floor division by a positive power of two). That agreement is not proved as a bit-vector identity.
- Rules.DecodeIdxIsMaskShift: the bit-vector identity is proved for indices below 32 only. For the indices of a longer table, `Rules.DecodeIdx` states that the low five bits are kept.
- Rules.GetIdx: takes five `Bit` arguments, because every cell the model can produce is 0 or 1.
- TableText.ParseIntRoundTrip and `TableText.ParseInt`: `int()` accepts non-ASCII decimal digits, which the model rejects. Every text `lut_to_str` writes is ASCII.
- TableText.ParseIntRoundTrip: holds for every integer. Python 3.11 and later refuse `"{}".format(v)` and `int(s)` beyond 4300 digits (`sys.set_int_max_str_digits`); the model has no such limit.
- TableText.WithoutTrailingCommaRoundTrip: holds for values of any size; with that digit limit, Python 3.11 and later raise ValueError on a value of more than 4300 digits.
- TableText.JoinedRoundTrip: the same digit limit is not modelled.
- TableText.LutToText: the same digit limit is not modelled.
- Python lists are shared, not copied: `current_row = row` and the `output_scale` appends of the same pixel row `r`. The model uses values, which behave the same here because nothing mutates those lists later.
- The inline loops of the source are split into helper methods: `CellIndex` for the neighbourhood, `NextGeneration` for one driver step, and `ExpandCells`/`AppendCopies` for the pixel loops. The order of the appends is unchanged.

## Findings

| source | as written | input that shows it | evidently intended | confidence | as-written member | corrected member |
|---|---|---|---|---|---|---|
| entombed.py:237-244 | `lut_to_str` writes a comma after every value, so `lut_from_str` finds an empty last field and `int("")` raises ValueError. The help text at entombed.py:394 prints this string as the default for `--rules`, so pasting it back fails | the table `[0]`: the text is `"0,"`, whose fields are `"0"` and `""` | `lut_from_str(lut_to_str(l)) == l`: values separated by commas, without the trailing one | high; not executed | TableText.TrailingCommaFails | TableText.LutToText |
