# Advent of Code 2020 solvers, days 2–7 and 11, in Dafny

This project models the puzzle logic of a set of Rust solvers for Advent of
Code 2020 and proves properties of it. Each day becomes one module
(`Day02`, `Day03`, `Day04`, `Day05`, `Day06`, `Day07`, `Day11`), and
`Day03Examples`, `Day04Examples`, `Day06Examples`, `Day07Examples` and
`Day11Examples` restate the solvers' unit tests as lemmas. Where a test's
text is long, the lemma builds that text from its lines or from the
passports it lists (see Left out). Three support
modules model the parts of Rust's standard library the solvers rely on:

- `Wrappers` holds `Option`.
- `Text` models `str::find`, `split` by a character or a string, `lines`
  and `split_whitespace`.
- `Numbers` models `from_str_radix` / `parse` for `u32` and `usize`, and
  decimal formatting.

A Rust `unwrap` on `None`, a failed `assert!` and a `panic!` are all
modelled as a `None` result. The model keeps the cases where the source
panics apart from the cases where it answers.

- **day02**: a password-database line `"min-max c: password"` is split into
  a policy and a password.
- **day03**: a map of open squares `.` and trees `#` is read into a
  row-major grid. A `Ray` object walks it with a horizontally wrapping
  cursor. The driver multiplies the tree counts of five slopes.
- **day04**: passports are sequences of `key:value` tokens. The model
  covers the token parser, the part-1 rule (seven required fields) and the
  seven part-2 field validators. The driver counts valid passports per
  blank-line-separated block.
- **day05**: a boarding pass is a binary number written with F/L for 0 and
  B/R for 1. The driver keeps the highest id, marks seats in a 1024-slot
  array, and reports free seats between two occupied ones.
- **day06**: part 1 counts each group's distinct answers by sort and
  dedup. Part 2 ORs each line's letters into a bit mask, ANDs the masks
  across the group and counts the bits.
- **day07**: luggage rules are parsed into a map from bag name to its
  contents. A recursive expansion computes both the set of transitively
  contained bags and the weighted count of bags inside.
- **day11**: a seat layout is a `Grid` class with an in-place
  `Transition`. The transition first collects every change from the grid
  as it was, then writes them, and returns how many cells changed.

## Model

| member | source | states |
|---|---|---|
| Day02.ParseChar | day02/src/main.rs:31 | a character field parses exactly when it is one character long, and then it is that character |
| Day02.PolicyFromString | day02/src/main.rs:27-35 | a parsed policy has both bounds below 2^32 |
| Day02.PolicyRoundTrip | day02/src/main.rs:27-35 | every policy with `u32` bounds and a non-space character is read back from "min-max c", including min > max (the bounds are never compared) |
| Day02.PolicyErrors | day02/src/main.rs:28-33 | the policy is rejected without a space, without a '-', with a character field whose length is not 1, or with a bound that is not a `u32` |
| Day02.EntryRoundTrip | day02/src/main.rs:17-23 | an entry is read back from "policy: password" when the password holds no ": " |
| Day02.SecondSeparatorDropped | day02/src/main.rs:18-21 | text after a second ": " does not change the parsed entry |
| Day02.MissingPassword | day02/src/main.rs:21 | a line without ": " has no password part and is rejected |
| Day02.ExamplePolicy | day02/src/main.rs:42-53 | "1-3 a" gives character 'a', min 1 and max 3 |
| Day02.ExampleLine1 | day02/src/main.rs:55-68 | "1-3 a: abcde" parses to policy ('a', 1, 3) and password "abcde" |
| Day02.ExampleLine2 | day02/src/main.rs:69-81 | "1-3 b: cdefg" parses to policy ('b', 1, 3) and password "cdefg" |
| Day02.ExampleLine3 | day02/src/main.rs:82-95 | "2-9 c: ccccccccc" parses to policy ('c', 2, 9) and password "ccccccccc" |
| Day03.CellRoundTrip | day03/src/main.rs:30-36 | '.' and '#' are the only cell characters, and a cell's character reads back as that cell |
| Day03.FromString | day03/src/main.rs:22-47 | the map is read exactly when every line holds only '.'/'#' and each line's length equals the previous width unless that width is 0; the grid is then the row-major cells, the line count and the last width |
| Day03.FromLines | day03/src/main.rs:27-40 | the line loop succeeds exactly on well-formed lines and produces the grid they specify |
| Day03.BadCharacter | day03/src/main.rs:35 | a character other than '.'/'#' anywhere makes the map malformed |
| Day03.BadWidth | day03/src/main.rs:38 | a line whose length differs from a non-zero previous width makes the map malformed |
| Day03.RowsCut | day03/src/main.rs:27-37 | the cell vector of the lines is the concatenation of the cells of any split of them |
| Day03.RowsLength | day03/src/main.rs:27-37 | with lines of at most w characters there are at most w·height cells, and exactly w·height when every line has w |
| Day03.UniformWidth | day03/src/main.rs:38-39 | in a well-formed map every line after the first non-empty one has the same length, and every line is empty or as long as the last |
| Day03.IndexRowMajor | day03/src/main.rs:58-63 | on rectangular lines, position (x, y) reads the cell of character x of line y, at offset x + width·y |
| Day03.Ray.constructor | day03/src/main.rs:49-55 | `cast_ray` puts the cursor on the start position with no steps taken |
| Day03.Ray.Next | day03/src/main.rs:73-80 | each call first moves x to (x+dx) mod width and y to y+dy, then yields the cell there or None once y ≥ height, so the start cell is never yielded |
| Day03.PositionStep | day03/src/main.rs:74-75 | after k+1 steps x is (x_k + dx) mod width and y is y_k + dy, so after k steps x = (start.x + k·dx) mod width and y = start.y + k·dy |
| Day03.InRows | day03/src/main.rs:76-79 | with dy ≥ 1 the k-th step lands inside the grid exactly for k up to the last step, so the ray yields exactly those cells and then None |
| Day03.Trees | day03/src/main.rs:92-95 | the number of trees met between two steps is at most the number of steps |
| Day03.CountTrees | day03/src/main.rs:92-95 | draining the ray counts the trees on every step from the current one to the last in-grid step |
| Day03.RectangularGrid | day03/src/main.rs:22-47 | equal-length non-empty lines give a well-formed grid with width·height cells |
| Day03.RectangularReadable | day03/src/main.rs:58-78 | on such a grid every in-grid ray position is a valid index |
| Day03.LeadingBlankLinePanics | day03/src/main.rs:38-61 | an empty first line before equal-length rows gives a grid whose last in-grid position on the (1, 1) slope lies outside the cell vector, where the source's index panics |
| Day03.ProductStep | day03/src/main.rs:88-101 | the product over the first i+1 slopes is the product over i slopes times the trees on slope i |
| Day03.SlopeTrees | day03/src/main.rs:91-95 | one slope's count is defined for rectangular input and equals the trees met by the ray from (0, 0) |
| Day03.TreesProduct | day03/src/main.rs:88-101 | the driver succeeds exactly on rectangular input and returns the product of the tree counts of (1,1), (3,1), (5,1), (7,1) and (1,2) |
| Day03Examples.SmallLines | day03/src/main.rs:109 | the example map splits into its three lines |
| Day03Examples.ExampleEmptyGrid | day03/src/main.rs:135-140 | "" gives a well-formed 0×0 grid without cells |
| Day03Examples.ExampleOneCellGrids | day03/src/main.rs:136-160 | "." and "#" give 1×1 grids, and "#" at (0, 0) is a tree |
| Day03Examples.SmallGrid | day03/src/main.rs:161-183 | the three example lines give width 4, height 3 and the twelve listed cells |
| Day03Examples.ExampleSmallGrid | day03/src/main.rs:161-183 | the example map text gives the same grid |
| Day03Examples.ExampleAccess | day03/src/main.rs:123-133 | the six example positions read Empty, Tree, Empty, Tree, Tree and Empty |
| Day03Examples.ExampleRay | day03/src/main.rs:107-111 | the (1, 1) ray on the example yields Empty, then Tree, then None, so it meets one tree |
| Day03Examples.TreesOfVisits | day03/src/main.rs:92-95 | when the first moves of a ray read given cells, the trees it counts up to move n are the trees among the first n of those cells |
| Day03Examples.VisitFromCorner | day03/src/main.rs:72-80 | on a rectangular map, move k from (0, 0) reads the character at column k·dx mod width of line k·dy |
| Day03Examples.SlopeCount | day03/src/main.rs:91-95 | on a rectangular map read one line down per move, the slope's tree count is the number of trees among the cells the moves read |
| Day03Examples.AocLines | day03/src/main.rs:114 | the example map's text, its eleven lines each ending in '\n', splits back into those lines |
| Day03Examples.AocRectangular | day03/src/main.rs:114 | the eleven example lines are a rectangular map |
| Day03Examples.ExampleAocRay | day03/src/main.rs:113-120 | on the example map the ray along (3, 1) from (0, 0) meets 7 trees |
| Day04.KeyNames | day04/src/main.rs:35-44 | the eight key names and the keys correspond one to one |
| Day04.Assign | day04/src/main.rs:36-43 | assigning a key sets that field and leaves the other seven unchanged |
| Day04.PairOf | day04/src/main.rs:31-34 | a token "name:value" with no further ':' splits into exactly those two parts |
| Day04.EntryOf | day04/src/main.rs:31-43 | a token for a known key yields that key and value |
| Day04.LastValueWins | day04/src/main.rs:30-46 | a repeated key keeps the value of its last token |
| Day04.LastValueFrom | day04/src/main.rs:30-46 | a set field got its value from the key's last token, and a field stays None exactly when no token names its key |
| Day04.PassportOf | day04/src/main.rs:19-46 | every field of the parsed passport is the value of the last token for its key |
| Day04.FromString | day04/src/main.rs:18-49 | the method returns the parse of the whitespace-separated tokens |
| Day04.FromTokens | day04/src/main.rs:30-46 | the token loop succeeds exactly when every token has one ':' and a known key, and then yields the last-value passport |
| Day04.RenderRoundTrip | day04/src/main.rs:18-49 | a passport written as tokens for distinct keys, with values free of ':' and whitespace, is read back |
| Day04.LayoutRoundTrip | day04/src/main.rs:18-49 | a passport written as non-empty lines of tokens for distinct keys covering its set fields, in any order, is read back, and the text has no blank line |
| Text.SplitLinesOfWords | day04/src/main.rs:30 | `split_whitespace` on lines of words joined by ' ' and '\n' yields all the words in order |
| Day04.LastValueFor | day04/src/main.rs:30-46 | in a rendered passport a field is set exactly when its key is among the written keys |
| Day04.Part1Keys | day04/src/main.rs:51-59 | part 1 holds exactly when the seven fields other than the country id are present, whatever the country id is |
| Day04.YearFormat | day04/src/main.rs:93-142 | a year field written as a decimal, also with a leading '0' or '+', is valid exactly when the number lies in the range; no digit count is checked |
| Day04.LeadingZero | day04/src/main.rs:96 | a leading zero does not change the parsed value |
| Day04.HeightFormat | day04/src/main.rs:144-162 | a number followed by "cm" is valid exactly in 150..=193, and followed by "in" exactly in 59..=76 |
| Day04.HeightShape | day04/src/main.rs:148-162 | the height check panics exactly on a field shorter than two bytes, and a valid height has a number that parses and a unit "cm" or "in" |
| Day04.HairColorDigits | day04/src/main.rs:170-194 | a hair colour is valid exactly when a '#' occurs and the text after the first one is six bytes of hex digits, possibly behind a '+' |
| Day04.HairColorFormat | day04/src/main.rs:170-194 | '#' followed by six hex digits is valid |
| Day04.PassportIdDigits | day04/src/main.rs:214-236 | a passport id is valid exactly when it has nine characters that are decimal digits, possibly behind a '+' |
| Day04.Part2Conjunction | day04/src/main.rs:61-91 | part 2 holds exactly when all seven validators hold, and implies part 1; it panics exactly on a height shorter than two bytes after three valid years |
| Day04.VerdictConsistent | day04/src/main.rs:248-254 | a passport that counts for part 2 counts for part 1 |
| Day04.TallyDefined | day04/src/main.rs:247-255 | the counts are defined exactly when no passport panics |
| Day04.TallyBounds | day04/src/main.rs:247-255 | the part-2 count is at most the part-1 count, which is at most the number of passports |
| Day04.TallyAppend | day04/src/main.rs:247-255 | one more passport adds its two verdicts to the counts |
| Day04.TallyPrefix | day04/src/main.rs:247-255 | a panic on any passport makes the whole count panic |
| Day04.CountValid | day04/src/main.rs:247-255 | the driver's two counts over the "\n\n"-separated blocks are the tally of the verdicts, with part 2 ≤ part 1 ≤ blocks |
| Day04.CountPassports | day04/src/main.rs:247-255 | the counting loop computes the tally of the verdicts |
| Day04.Judge | day04/src/main.rs:248-254 | one passport text's verdict pair: parsed, then judged by both rules |
| Day04Examples.Centimetres | day04/src/main.rs:144-168 | a three-digit height in cm is valid exactly when its value lies in 150..=193 |
| Day04Examples.Inches | day04/src/main.rs:144-168 | a two-digit height in inches is valid exactly when its value lies in 59..=76 |
| Day04Examples.Year | day04/src/main.rs:93-142 | a four-digit year is in range exactly when its value is |
| Day04Examples.HexColor | day04/src/main.rs:170-194 | '#' and six hex digits make a valid hair colour |
| Day04Examples.NineDigits | day04/src/main.rs:214-236 | nine decimal digits make a valid passport id |
| Day04Examples.ValidPassport | day04/src/main.rs:61-91 | a passport whose years, height, colour and id are written in the shape of the valid examples passes part 2 |
| Day04Examples.ExampleValid1 | day04/src/main.rs:274-283 | the passport the first valid text denotes passes part 2 |
| Day04Examples.ExampleValid2 | day04/src/main.rs:274-283 | the passport the second valid text denotes passes part 2 |
| Day04Examples.ExampleValid3 | day04/src/main.rs:274-283 | the passport the third valid text denotes passes part 2 |
| Day04Examples.ExampleValid4 | day04/src/main.rs:274-283 | the passport the fourth valid text denotes passes part 2 |
| Day04Examples.ExampleInvalid1 | day04/src/main.rs:263-272 | the passport the first invalid text denotes fails part 2 (expiration year 1972) |
| Day04Examples.ExampleInvalid2 | day04/src/main.rs:263-272 | the passport the second invalid text denotes fails part 2 (expiration year 1967) |
| Day04Examples.ExampleInvalid3 | day04/src/main.rs:263-272 | the passport the third invalid text denotes fails part 2 (hair colour without '#') |
| Day04Examples.ExampleInvalid4 | day04/src/main.rs:263-272 | the passport the fourth invalid text denotes fails part 2 (birth year 2007) |
| Day04Examples.Part2Texts | day04/src/main.rs:263-283 | four passport texts joined by blank lines split back into four, and each piece parses to a passport with the shared part-2 verdict |
| Day04Examples.ExampleValidTexts | day04/src/main.rs:274-283 | the valid examples' text splits into four passports, and each parses and passes part 2 |
| Day04Examples.ExampleInvalidTexts | day04/src/main.rs:263-272 | the invalid examples' text splits into four passports, and each parses and fails part 2 |
| Day04Examples.ExampleFromString | day04/src/main.rs:286-298 | the example passport's text parses to a passport with all eight listed values |
| Day04Examples.Verdict1 | day04/src/main.rs:300-310 | the first example passport passes parts 1 and 2 |
| Day04Examples.Verdict2 | day04/src/main.rs:300-310 | the second example passport, which lacks a height, fails parts 1 and 2 |
| Day04Examples.Verdict3 | day04/src/main.rs:300-310 | the third example passport passes parts 1 and 2 |
| Day04Examples.Verdict4 | day04/src/main.rs:300-310 | the fourth example passport, which lacks a birth year, fails parts 1 and 2 |
| Day04Examples.Counted | day04/src/main.rs:300-310 | four texts judged valid, invalid, valid, invalid are counted as two for each part |
| Day04Examples.ExampleCount | day04/src/main.rs:300-310 | the example text splits into four passports, and two of them are valid for part 1 (and for part 2) |
| Day05.Binary | day05/src/main.rs:9-13 | the replacements map each character to its bit character, position by position |
| Day05.ParseBoardingPass | day05/src/main.rs:7-17 | a decoded id is below 2^64 |
| Day05.BinaryDigits | day05/src/main.rs:7-17 | a pass of F, B, L, R becomes a binary numeral whose value reads F/L as 0 and B/R as 1 |
| Day05.Decode | day05/src/main.rs:7-17 | a pass of 1 to 64 letters decodes to its binary value, which is below 2^n for n letters, so a 10-letter pass indexes inside the 1024 seats |
| Day05.RowAndColumn | day05/src/main.rs:7-17 | a 10-letter pass decodes to row·8 + column, with the row from the first seven letters and the column from the last three |
| Day05.Injective | day05/src/main.rs:7-17 | two passes in the puzzle's shape with the same id are equal |
| Day05.LettersInterchangeable | day05/src/main.rs:10-13 | F and L, and B and R, decode alike: "FB" and "LR" both give 1 |
| Day05.Errors | day05/src/main.rs:8-16 | the empty pass, and a pass with a character outside F, B, L, R, '0', '1' and a leading '+', fail to decode |
| Day05.Lenient | day05/src/main.rs:8-15 | a leading '+' and the digits '0'/'1' pass through the replacements: "+B" gives 1 and "B0" gives 2 |
| Day05.Example1 | day05/src/main.rs:54-61 | BFFFBBFRRR decodes to 567 |
| Day05.Example2 | day05/src/main.rs:54-61 | FFFBBBFRRR decodes to 119 |
| Day05.ExampleBinary2 | day05/src/main.rs:9-13 | FFFBBBFRRR becomes "000" followed by the binary numeral of 119 |
| Day05.LeadingZeros | day05/src/main.rs:8-15 | leading zeros do not change a binary value |
| Day05.Example3 | day05/src/main.rs:54-61 | BBFFBBFRLL decodes to 820 |
| Day05.ScanStep | day05/src/main.rs:29-38 | one more line keeps every id a valid seat, raises the highest id to the new one when larger, and adds the new id to the occupied seats |
| Day05.FindSeats | day05/src/main.rs:19-49 | the driver panics exactly when some line is not a pass of a seat below 1024; otherwise it returns the maximum id (0 without lines) and, in increasing order, exactly the seats s with s−1 and s+1 occupied and s free |
| Day05.ScanSeats | day05/src/main.rs:25-49 | the same over the lines: the highest id and every free seat between two occupied ones |
| Day05.SameFreeSeats | day05/src/main.rs:44-48 | a free slot between two occupied slots of the seat array is exactly a free seat between two occupied passes |
| Day05.FreeSeats | day05/src/main.rs:44-48 | the window scan reports, in increasing order, exactly the s in 1..1022 with occupied[s−1], !occupied[s] and occupied[s+1] |
| Day06.Groups | day06/src/main.rs:11 | the "\n\n"-separated groups join back to the input |
| Day06.Insert | day06/src/main.rs:14 | inserting into a sorted sequence keeps it sorted and adds the element to its multiset |
| Day06.Sort | day06/src/main.rs:14 | the result is sorted and a permutation of the input |
| Day06.Dedup | day06/src/main.rs:15 | dedup removes adjacent repeats and keeps the same set of characters; on sorted input the result is strictly increasing |
| Day06.DistinctLength | day06/src/main.rs:13-16 | a strictly increasing sequence has as many distinct characters as elements |
| Day06.CharsWithoutWhitespace | day06/src/main.rs:12 | the characters left after removing whitespace are the group's answers |
| Day06.DistinctAnswers | day06/src/main.rs:12-16 | a group's part-1 value is the number of distinct non-whitespace characters |
| Day06.Part1 | day06/src/main.rs:10-22 | part 1 gives each group's distinct-answer count, in order, and their sum |
| Day06.AnswerBit | day06/src/main.rs:40 | a character shifts without panic exactly when its offset from 'a' is 0..31, and its mask has exactly that letter's bit |
| Day06.LineMask | day06/src/main.rs:36-41 | a line's mask has bit i set exactly when letter 'a'+i occurs in the line |
| Day06.LineMaskAppend | day06/src/main.rs:36-41 | the mask of two joined texts is the OR of their masks |
| Day06.LineMaskOrder | day06/src/main.rs:36-41 | the mask does not depend on the order of the parts |
| Day06.LineMaskRepeat | day06/src/main.rs:36-41 | repeated letters do not change the mask |
| Day06.AndAll | day06/src/main.rs:45-49 | the AND from 2^26−1 fits in 26 bits and has bit i exactly when i < 26 and every mask has bit i, so no lines give all 26 bits |
| Day06.AndAllWithin | day06/src/main.rs:45-49 | a bit of the AND is a bit of every line's mask |
| Day06.GroupMask | day06/src/main.rs:27-50 | a group's mask is defined exactly when every line shifts without panic; it has bit i exactly when letter i occurs in every non-empty line |
| Day06.LinesMask | day06/src/main.rs:31-49 | the line loop skips empty lines and ANDs the masks of the others |
| Day06.CountBitsCardinality | day06/src/main.rs:54 | counting bits one by one gives the size of the set of bit positions |
| Day06.CountOnes | day06/src/main.rs:54 | `count_ones` is the number of set bit positions |
| Day06.CommonBits | day06/src/main.rs:45-54 | the set bits of a group's mask are exactly the letters every line answered |
| Day06.Part2 | day06/src/main.rs:25-59 | part 2 is defined exactly when every group is, and gives each group's count of letters answered by all its lines, in order, and their sum |
| Day06.GroupCounts | day06/src/main.rs:27-55 | the count of every group, in order |
| Day06.GroupCount | day06/src/main.rs:27-55 | one group's count is the number of letters answered on each of its non-empty lines |
| Day06Examples.ExamplePart1 | day06/src/main.rs:112-125 | the five example groups have 3, 3, 3, 1 and 1 distinct answers |
| Day06Examples.ExampleCommon1 | day06/src/main.rs:64-110 | "abc" has 3 common answers |
| Day06Examples.ExampleCommon2 | day06/src/main.rs:64-110 | "a\nb\nc" has none |
| Day06Examples.ExampleCommon3 | day06/src/main.rs:64-110 | "ab\nac" has 1 |
| Day06Examples.ExampleCommon4 | day06/src/main.rs:64-110 | "a\na\na\na" has 1 |
| Day06Examples.ExampleCommon5 | day06/src/main.rs:64-110 | "b" has 1 |
| Day07.ItemFromString | day07/src/main.rs:34-40 | a parsed item's amount is a `usize` |
| Day07.BagContentFromString | day07/src/main.rs:24-45 | the method computes the rule: the name before the first " bags contain ", no contents if "no other bags." occurs, otherwise the parsed ", "-separated items |
| Day07.ParseItems | day07/src/main.rs:31-41 | the item loop parses every item in textual order and fails on the first that does not parse |
| Day07.RulesetFromString | day07/src/main.rs:9-22 | the line loop builds the map by inserting each non-empty line's rule in order |
| Day07.RecursiveBagExpansion | day07/src/main.rs:48-65 | on a ranked ruleset the expansion is defined exactly when every reached bag has a rule; the count is 1 + Σ amount·count(child) and the returned set is the given set plus every transitively contained bag |
| Day07.BagsContainedPart1 | day07/src/main.rs:67-70 | part 1 returns exactly the set of transitively contained bags |
| Day07.BagsContainedPart2 | day07/src/main.rs:72-75 | part 2 returns the expansion count minus the bag itself, Σ amount·count(child) |
| Day07.ContainedBelow | day07/src/main.rs:53-62 | every contained bag has a rule and ranks below the bag |
| Day07.NotContainedInItself | day07/src/main.rs:56-64 | a bag is never in its own contained set |
| Day07.ContainedReachable | day07/src/main.rs:56-64 | a bag is in the contained set exactly when a chain of direct containments leads to it |
| Day07.ContainedChain | day07/src/main.rs:56-64 | each contained bag is reached by such a chain |
| Day07.ChainContained | day07/src/main.rs:56-64 | the end of every chain is contained |
| Day07.ChildContained | day07/src/main.rs:56-62 | a listed bag and everything it contains are in the set, which only grows |
| Day07.ItemRoundTrip | day07/src/main.rs:34-40 | an item "n name bag…" reads back as (n, name) |
| Day07.RuleRoundTrip | day07/src/main.rs:24-45 | a rule text reads back as its name and contents, in order |
| Day07.NoOtherAbsent | day07/src/main.rs:30 | a rule with contents never contains "no other bags.", so its items are parsed |
| Day07.CollectDefined | day07/src/main.rs:12-19 | the ruleset is read exactly when every non-empty line is a rule |
| Day07.CollectKeys | day07/src/main.rs:12-19 | the keys are the names of the non-empty lines |
| Day07.CollectLast | day07/src/main.rs:18 | a later rule for the same name replaces an earlier one |
| Day07.RulesetRoundTrip | day07/src/main.rs:9-22 | a ruleset with distinct names, written one rule per line, is read back |
| Day07Examples.ExampleShinyGold | day07/src/main.rs:103-112 | in the example shiny gold counts 33 bags including itself, so 32 inside |
| Day07Examples.ExamplePart1 | day07/src/main.rs:114-128 | in the example exactly bright white, muted yellow, dark orange and light red contain shiny gold |
| Day07Examples.PuzzleExample | day07/src/main.rs:103-128 | with the puzzle's colour names: 4 colours contain shiny gold, which holds 32 bags |
| Day07Examples.ExampleParse | day07/src/main.rs:130-153 | the three example lines parse to the three listed rules |
| Day07Examples.ExampleParseRules | day07/src/main.rs:130-153 | the same with the colours as the test names them |
| Day11.StateRoundTrip | day11/src/main.rs:17-25 | 'L', '#' and '.' are the only cell characters, and rendering a state gives a character that reads back as it |
| Day11.InPositions | day11/src/main.rs:153-154 | the positions visited are exactly those inside the grid |
| Day11.OffsetInside | day11/src/main.rs:34-46 | an in-grid position indexes inside width·height cells |
| Day11.OffsetInjective | day11/src/main.rs:34-46 | distinct in-grid positions have distinct offsets |
| Day11.OffsetOf | day11/src/main.rs:34-46 | every offset is the offset of exactly the position (i mod width, i div width) |
| Day11.InNeighbours | day11/src/main.rs:89-110 | the neighbours are exactly the in-grid positions at Chebyshev distance 1 |
| Day11.NeighboursSymmetric | day11/src/main.rs:89-110 | adjacency is symmetric and a position is never its own neighbour |
| Day11.AtMostEight | day11/src/main.rs:91-107 | a position has at most eight neighbours, one per offset tried |
| Day11.NextCell | day11/src/main.rs:112-145 | a new state is never Floor and never the current state |
| Day11.NextCellRule | day11/src/main.rs:112-145 | Floor never changes; Empty becomes Occupied exactly with no occupied neighbour; Occupied becomes Empty exactly with at least 4 |
| Day11.NeighboursReadable | day11/src/main.rs:118-134 | every neighbour of an in-grid position indexes inside the cells |
| Day11.Step | day11/src/main.rs:147-170 | a step keeps the grid filled |
| Day11.StepAt | day11/src/main.rs:165-167 | after a step each cell holds its new state computed from the grid before the step |
| Day11.ChangesDiffer | day11/src/main.rs:147-170 | the changed positions are exactly those whose state differs after the step, and each holds its new state |
| Day11.FixedPoint | day11/src/main.rs:147-169 | a step changes no cell exactly when it leaves the grid as it was |
| Day11.StepKeepsFloor | day11/src/main.rs:119 | Floor cells stay Floor |
| Day11.FirstRound | day11/src/main.rs:120-130 | from a grid without Occupied seats every seat becomes Occupied |
| Day11.LayoutErrors | day11/src/main.rs:18-25 | the layout is read exactly when every character of the non-empty lines is a cell character, and its cells render back to those characters |
| Day11.LayoutFilled | day11/src/main.rs:65-87 | lines of equal length give width·height cells |
| Day11.RenderRoundTrip | day11/src/main.rs:48-87 | a filled grid of positive size is read back from its rendering |
| Day11.Grid.constructor | day11/src/main.rs:82-86 | the grid holds the given cells and dimensions |
| Day11.Grid.Get | day11/src/main.rs:34-40 | position (x, y) reads cell x + width·y |
| Day11.Grid.Set | day11/src/main.rs:42-46 | position (x, y) writes cell x + width·y and nothing else |
| Day11.Grid.AdjacentPositions | day11/src/main.rs:89-110 | the nested offset loops return exactly the neighbours |
| Day11.Grid.From | day11/src/main.rs:65-87 | the grid is built exactly when the layout is read, with its cells, width and height |
| Day11.Grid.ReadRow | day11/src/main.rs:73-78 | one line's loop appends its cells, fails on a bad character, and counts the width only on the first line |
| Day11.Grid.Render | day11/src/main.rs:48-62 | the text is each row's state characters followed by '\n' |
| Day11.Grid.CollectChanges | day11/src/main.rs:150-163 | the first phase collects exactly the changes computed from the grid as it was |
| Day11.Grid.Transition | day11/src/main.rs:147-170 | the grid becomes the step of the old grid and the count is both the number of collected changes and the number of cells whose state changed |
| Day11Examples.ExampleNeighbours | day11/src/main.rs:238-263 | (0, 0) has the three neighbours (0, 1), (1, 0), (1, 1), and (3, 1) has all eight |
| Day11Examples.SmallLayout | day11/src/main.rs:65-87 | "L.#\n#.L\n" reads as a 3×2 grid with the cells in row-major order |

## Left out

- day01 is not part of this model: its only logic is inside `main`, interleaved with reading the input file and printing.
- Reading the input file and every `println!` in the drivers and validators are left out. The drivers take the text as a parameter and return what they would print.
- Strings are sequences of ASCII characters. The model does not handle UTF-8 byte-versus-character slicing, and `split_whitespace` treats only ASCII whitespace as whitespace.
- Counters in the drivers (`usize`, `u32`) are unbounded integers. The model does not include overflow of a count or of the day03 tree product.
- Day07.RecursiveBagExpansion: requires a rank on the ruleset that strictly decreases from a bag to every bag its rule lists. This makes the ruleset acyclic. On a cyclic ruleset the source's recursion never ends and overflows the stack. `Ranked` constrains the whole ruleset, so a cycle that the start bag never reaches also excludes it; `main` expands every key and would reach such a cycle anyway.
- `HashMap`/`HashSet` iteration order is left out. day11's apply phase writes the changes in an arbitrary order chosen by the model. day07's keys and sets are Dafny maps and sets.
- Day11.Grid.From: does not ensure `Valid()`, the class invariant that the cells fill width·height. Like the source, it does not check row lengths. `Render`, `CollectChanges` and `Transition` require `Valid()`, and LayoutFilled shows that rows of equal length establish it.
- day11's `i64` casts in `get_adjacent_positions` are modelled as exact integers. This differs only for grids wider than 2^63.
- The day11 test that iterates `transition_part1` to a fixed point (37 occupied seats on the 10×10 example) is not part of this model. The source has no convergence argument, and the loop would need an unbounded step count.
- The day11 `from` test on the 10×10 example is stated on a smaller 3×2 layout (SmallLayout). The 100-character literal is beyond what the verifier handles cheaply. LayoutFilled covers width·height in general.
- The day11 tests that use a `visibility` field and a threshold-5 rule, and the test tied to the real input file, are not part of this model. `Grid` has no such field and no code computes it.
- Day03.FromString: follows the code, so the width is the last line's length and lines after an empty one are accepted. An empty first line followed by rows makes indexing panic (LeadingBlankLinePanics).
- Day05.Errors: follows the code rather than the prose. The characters '0' and '1', and a single leading '+', survive the replacements and are accepted by `from_str_radix`.
- Day05.FindSeats: a decoded id of 1024 or more panics at the array write. The model reports this as None, like a failed decode.
- Day06.AnswerBit: models a build with overflow checks, Rust's default for debug and test builds. There a character below 'a' or 32 or more places past it panics in the subtraction or the shift, and the model gives None. A release build wraps the subtraction and masks the shift amount instead. For example, the space in the line "ab c" then sets bit 31, which the AND with 2^26−1 clears, so the group counts 3 as for "abc" rather than panicking. That profile is not modelled.
- Numbers.ParseUnsigned: follows Rust's `from_str_radix`, which accepts one leading '+', digits of the radix in either case, and values below the type's bound. Parse error kinds are not distinguished.
- Day07Examples.ExampleParseRules: the test's text is written as the three example lines joined by '\n', with the colour names taken from one record. A 150-character literal is beyond what the verifier handles cheaply.
- Day04Examples.ExampleCount: the test's text, like those of ExampleValidTexts, ExampleInvalidTexts and ExampleFromString, is built by LinesOfWords from each passport record and the order in which the test's text lists its fields on each line (the LAYOUT constants). A literal of about 300 characters is beyond what the verifier handles cheaply. The records and layouts are read off the literals, and LayoutRoundTrip shows the built text parses back to the record.
- Day03Examples.ExampleAocRay: the map's text is written as its eleven lines joined by '\n' with a final '\n', which is the test's literal, rather than as one 132-character literal, for the same reason.
