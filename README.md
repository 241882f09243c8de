# psudohash: mutation engine and size estimator

psudohash turns a few keywords into a password wordlist. For each keyword the
main loop (`main`) runs these stages, in this order:

- **Case stage.** Every upper/lower-case combination of the lower-cased
  keyword (`mutate_case`, `case_mutations_handler`).
- **Substitution stage.** Runs when the keyword holds a character of the
  transformation table. Every case variant gets every combination of
  substitute glyphs at the table positions (`calculate_transformations`,
  `mutate`, `mutations_handler`).
- **Numbering stage.** Counters `1..numbering_limit` are zero-padded to
  widths `1..append_numbering` and appended, with and without an
  underscore. A padded form equal to the previous level's is not
  written again (`do_append_numbering`).
- **Year stage.** Full and two-digit years are appended behind every year
  separator and join the basic mutations (`mutate_years`).
- **Padding stage.** Common padding tokens are put after and/or before every
  mutation, with and without an underscore (`append_paddings_after`,
  `append_paddings_before`, `check_underscore`).

Before anything is written, `calculate_output` announces how many lines and
bytes this will produce, and the user must agree. `parse_arguments` first
validates the keyword, numbering, year and padding options.

The model has the same shape as the program:

- **`Engine.Generator`** is a class. Its fields are the module-level lists
  `basic_mutations` and `mutations_cage`, plus `out`, the lines written so far.
  Each stage is a method that updates them.
- **Specification functions** (`Substitute`, `LevelLines`, `YearLines`,
  `PadAfter`, `KeywordLines`, …) state the methods' results. The
  properties are lemmas about those functions.
- **The estimator** is a method with the loops of `calculate_output`.
  `Driver` ties the two together. Under the exactness conditions
  (`Settings.EstimateExact`) the announced count and size are exactly the
  lines and bytes the engine writes. Those conditions are:
  - every table key is a lower-case letter (`Settings.KeysLower`). A key
    that is not a letter, such as `'1'`, gets the factor `len + 2` from
    `calculate_transformations`, but its two cases coincide, so only
    `len + 1` choices exist and the estimate over-counts. An upper-case
    key is never matched by the lowered keyword at all;
  - single-character glyphs that differ from each other and from the cases of their letter;
  - four-character years;
  - non-empty padding tokens;
  - no padding token with an underscore at its joining end;
  - `custom_paddings_only` only together with "after" padding.
- **Where the estimate is wrong.** Outside the last condition the estimate
  undercounts; `Estimator.CustomOnlyUndercounts` proves it.
- **IndexError in `mutate`.** A glyph may be the empty string. It shortens
  the entries it goes into by one character. A later index can then lie
  beyond an entry, and `w[tc] = tt` raises IndexError. A glyph longer than
  one character only moves the later characters to the right, and
  `Substitution.NonEmptyRuns` proves that without empty glyphs nothing is
  raised. Nothing catches it, so the run stops with the wordlist as
  written so far. `Substitution.Runs` is the condition under which no
  `mutate` call of a cage raises it. The methods return `ok` equal to that
  condition, and `Driver.Run` then returns `Failed`.
  `Substitution.ShortenedCageFails` shows the table `{'a': [""], 'b': ["8"]}`
  failing on "ab". `Substitution.EmptyGlyphRuns` shows an empty glyph alone
  raising nothing.
- **Coverage.** `Coverage` proves that the deduplicated basic mutations are
  exactly the strings whose every position is drawn from the case and
  glyph choices of the keyword. Their number is therefore the
  `basic_total` of `calculate_transformations`.

Only ASCII character classes are modelled: `isalpha`, `isdecimal`, `upper`,
`lower` and `strip`. Strings are `seq<char>`.

## Model

| member | source | states |
|---|---|---|
| Transformations.CalculateTransformations | psudohash.py:190-201 | `trans_chars` holds exactly the indices whose character is a table key, ascending; `basic_total` is the product of the per-character factors |
| Transformations.KeyIndicesFromSpec | psudohash.py:194-196 | the recorded indices are exactly the key positions from `j` on, in ascending order |
| Transformations.CheckMutability | psudohash.py:406-407 | the number of key occurrences never exceeds the word's length |
| Transformations.MutabilityIffKeyIndex | psudohash.py:406-407 | `check_mutability` equals the number of indices `calculate_transformations` records, so it is positive exactly when some character is a key |
| Transformations.GlyphCharsCard | psudohash.py:197 | distinct single-character glyphs contribute as many characters as there are glyphs, none of them a case of the letter |
| Transformations.FullChoiceCard | psudohash.py:197-199 | under a simple table each position offers exactly its factor of choices: glyphs + 2 for a key, 2 for another letter, 1 otherwise |
| Transformations.BasicTotalIsChoices | psudohash.py:190-201 | `basic_total` equals the size of the product of the per-position choices |
| Transformations.BasicTotalNoKeys | psudohash.py:199 | with no key characters `basic_total` is the number of case combinations |
| Casing.MutateCaseShape | psudohash.py:255-256 | `mutate_case` yields 2^len combinations (duplicates included), each as long as the word |
| Casing.MutateCaseSet | psudohash.py:255-256 | the distinct combinations are exactly the strings drawn from {upper, lower} at every position |
| Casing.MutateCaseCount | psudohash.py:255-256 | the number of distinct combinations is the product of the per-position case choices, which is 2^(number of letters) |
| Casing.CaseChoicesPow2 | psudohash.py:199 | a letter offers two case choices and any other character one, so the choices multiply to 2^(number of letters) |
| Products.ProductSetMembers | psudohash.py:256 | a string is in the `itertools.product` set exactly when each character is drawn from its position's choices |
| Products.ProductSetCard | psudohash.py:256 | the product set has as many strings as the product of the choice-set sizes |
| Products.PairsCard | psudohash.py:256 | a first character from `xs` and a tail from `rs` give exactly `|xs|·|rs|` strings |
| Substitution.ConcatReplace | psudohash.py:212-217 | `w = list(m); w[tc] = tt; ''.join(w)` splices the glyph in at `tc` and keeps the rest |
| Substitution.Variants | psudohash.py:215-219 | one entry per glyph, in glyph order |
| Substitution.ExpandLength | psudohash.py:207-226 | one `mutate` call appends `len(trans)·len(cage)` entries |
| Substitution.ExpandAt | psudohash.py:211-219 | the appended entry at `j·|glyphs|+k` is original entry `j` with glyph `k` at `tc` (source-then-glyph order) |
| Substitution.ExpandNone | psudohash.py:207-226 | with an empty glyph list `mutate` appends nothing |
| Substitution.ExpandMembers | psudohash.py:211-219 | a string is appended exactly when it is some original entry with some glyph at `tc` |
| Substitution.NonEmptyRuns | psudohash.py:204-228 | with no empty glyph no entry ever gets shorter than the keyword, so no `mutate` call of the cage raises IndexError |
| Substitution.RunsPrefix | psudohash.py:238-240 | a run that raises nothing also raises nothing when stopped after fewer indices |
| Substitution.ShortenedCageFails | psudohash.py:212-215 | with `a` mapped to `[""]` and `b` to `["8"]`, "ab" becomes "b", and the `mutate` call for index 1 raises IndexError |
| Substitution.EmptyGlyphRuns | psudohash.py:212-219 | with only `b` mapped to `[""]`, "ab" raises nothing and gains the variant "a" |
| Substitution.SubstituteStep | psudohash.py:239-240 | one more `mutate` call over a cage holding the agreeing strings for the earlier indices yields the agreeing strings for one index more |
| Substitution.SubstituteMembers | psudohash.py:238-240 | after `mutate` has run for every index, the cage holds exactly the strings that differ from the start word only by glyphs at those indices |
| Substitution.SubstitutionsFlatten | psudohash.py:237-245 | what the second loop appends is the cages of all basic mutations, one after another |
| Substitution.SubstitutionsMembers | psudohash.py:243-245 | a string is appended exactly when some basic mutation's cage holds it |
| Coverage.CaseVariantsShape | psudohash.py:255-256 | case variants of a stripped keyword keep its length and are their own `strip()` |
| Coverage.KeyIndicesOfWord | psudohash.py:499 | the indices found on the lowered keyword are distinct key positions of the keyword |
| Coverage.NonEmptyKeywordRuns | psudohash.py:232-241 | with no empty glyph, no `mutate` call for any case variant of a stripped keyword raises IndexError |
| Coverage.CoverSound | psudohash.py:232-266 | every basic mutation is drawn from the full case-and-glyph choices |
| Coverage.CoverComplete | psudohash.py:232-266 | every string drawn from the full choices is a basic mutation |
| Coverage.MutationsCover | psudohash.py:490-500 | the basic mutations are, as a set, exactly the product of the full choices |
| Coverage.BasicCount | psudohash.py:190-247 | the number of distinct basic mutations is `basic_total`, and each is as long as the keyword |
| Lines.Dedup | psudohash.py:247 | `list(set(l))` is duplicate-free and has exactly the values of `l` |
| Lines.SizeOfAppend | psudohash.py:250 | bytes of lines written one after another add up |
| Lines.FlattenMembers | psudohash.py:243-245 | a line is in the concatenation exactly when it is in one of the parts |
| Lines.NoDupsCard | psudohash.py:247 | a duplicate-free list has as many entries as distinct values |
| Engine.Generator.constructor | psudohash.py:57-58 | both lists start empty and nothing is written |
| Engine.Generator.WriteLines | psudohash.py:249-250 | writing a list appends it to the output and changes nothing else |
| Engine.Generator.CaseMutationsHandler | psudohash.py:254-266 | the case combinations are appended; with mutability nothing is written; otherwise the list is deduplicated and written whole |
| Engine.Generator.Mutate | psudohash.py:204-228 | `ok` exactly when no entry is too short for `tc` or there are no glyphs; then the cage keeps its entries as a prefix and gains exactly `Expand` of them, and the `c == limit` break stops before the new entries; otherwise the cage holds what was appended before the first entry too short for `tc` |
| Engine.Generator.AppendVariants | psudohash.py:212-219 | one entry per glyph is appended to the cage and counted in `c` |
| Engine.Generator.CageOf | psudohash.py:238-240 | `ok` exactly when no `mutate` call raises IndexError (`Runs`); then the cage of one basic mutation after `mutate` for every index |
| Engine.Generator.CollectCages | psudohash.py:235-241 | `ok` exactly when no basic mutation's cage raises IndexError; then `container` flattens to the cages of all basic mutations |
| Engine.Generator.AppendAll | psudohash.py:243-245 | every cage entry is appended to `basic_mutations`, in order |
| Engine.Generator.MutationsHandler | psudohash.py:232-250 | `ok` exactly when no cage raises IndexError; then `basic_mutations` becomes duplicate-free with exactly the old values and the substitutions, and is written whole; otherwise nothing is written |
| Engine.Generator.NumberCounter | psudohash.py:277-286 | one counter: on the first cycle the pair is written and remembered; later it is written and remembered only when it differs from the remembered line |
| Engine.Generator.NumberLevel | psudohash.py:277-286 | one level: `previous_list` ends as this level's lines, and the written pairs are exactly `LevelLines` |
| Engine.Generator.NumberWord | psudohash.py:276-288 | one word: levels 1..`lvl` write `WordLines`, no line twice, and `first_cycle` is cleared |
| Engine.Generator.DoAppendNumbering | psudohash.py:270-289 | `basic_mutations` is unchanged; for distinct words of one length the output grows by exactly `NumberingLines`, and no line is written twice |
| Engine.Generator.MutateYears | psudohash.py:293-304 | the same lines are written and appended to `basic_mutations`: full and short year behind every separator, for a snapshot of the list |
| Engine.Generator.YearsForWord | psudohash.py:297-302 | one word: every year behind every separator, written and appended |
| Engine.Generator.SepsForYear | psudohash.py:298-302 | one word and year: `w+sep+y` and `w+sep+y[2:]` for every separator |
| Engine.Generator.AppendPaddingsAfter | psudohash.py:321-330 | writes `PadAfter` of the basic mutations and changes neither list |
| Engine.Generator.PadWordAfter | psudohash.py:325-328 | `w+v`, then `w+"_"+v` unless `v` starts with `_` |
| Engine.Generator.AppendPaddingsBefore | psudohash.py:308-317 | writes `PadBefore` of the basic mutations and changes neither list |
| Engine.Generator.PadWordBefore | psudohash.py:312-315 | `v+w`, then `v+"_"+w` unless `v` ends with `_` |
| Engine.Generator.BasicStages | psudohash.py:490-502 | `ok` exactly when no `mutate` call raises IndexError (`KeywordRuns`); then the basic mutations are duplicate-free, equal `Basic` as a set, and are written |
| Engine.Generator.StagesAfterBasic | psudohash.py:504-520 | numbering, years and paddings write exactly `KeywordLines` after the basic mutations |
| Engine.Generator.ProcessKeyword | psudohash.py:488-524 | `ok` exactly when the keyword raises no IndexError; then it writes its basic mutations and then `KeywordLines`, and both lists are emptied; otherwise nothing reaches the output |
| Numbering.LevelLinesMeasure | psudohash.py:277-286 | a level writes a pair exactly for counters that level writes (level 1, or fewer digits than the width) and costs `LevelSize` bytes |
| Numbering.WordLinesMeasure | psudohash.py:276-286 | a word's numbering lines: twice `PerWordCount` lines and `PerWordSize` bytes |
| Numbering.NumberingMeasure | psudohash.py:275-286 | for words of length `n`, each word costs the same numbering lines and bytes |
| Numbering.PadStep | psudohash.py:283 | level `i` differs from level `i-1` at counter `k` exactly when level `i` writes `k` |
| Numbering.NextLevelConsistent | psudohash.py:281-286 | after level `i-1`, `previous_list` differs from level `i` exactly at the counters level `i` writes |
| Numbering.NextWordConsistent | psudohash.py:283 | after another word of the same length, every remembered line differs from the new word's level-1 lines |
| Numbering.PaddedDiffer | psudohash.py:279-283 | two different written (counter, level) pairs never give the same `zfill`ed counter |
| Numbering.PairsDisjoint | psudohash.py:284-285 | the pairs written for two different (counter, level) pairs share no line, with or without the underscore |
| Numbering.WordLinesNoDups | psudohash.py:276-286 | a word's numbering lines never repeat |
| Numbering.NumberingLinesNoDups | psudohash.py:275-286 | for distinct words of one length the numbering lines never repeat |
| Numbering.MemoryAt | psudohash.py:281-286 | the remembered line for counter `q+1` is `word+zfill(q+1, i)` |
| Years.YearLinesMeasure | psudohash.py:296-302 | `2·|years|·|seps|` lines per word, costing the word copies plus each year's separators and digits |
| Years.WordYearLinesMeasure | psudohash.py:297-302 | one word's year lines: their count and bytes |
| Years.SepLinesSize | psudohash.py:298-302 | one year over all separators costs `2·|seps|` word copies plus `SepExtra` bytes |
| Years.YearsExtraFour | psudohash.py:373-380 | with 4-character years every year adds the same bytes |
| Paddings.PadAfterMeasure | psudohash.py:321-330 | with no leading underscore, `2·|pads|` lines per word and their bytes |
| Paddings.PadBeforeMeasure | psudohash.py:308-317 | with no trailing underscore, `2·|pads|` lines per word and their bytes |
| Stages.ExtendedMeasure | psudohash.py:293-302 | the basic mutations with the year lines appended: count and bytes |
| Stages.PiecesMeasure | psudohash.py:504-520 | each stage's part of a keyword's lines, measured under the exactness conditions |
| Stages.KeywordMeasure | psudohash.py:488-524 | the lines and bytes written for a keyword are `KeywordCount` and `KeywordSize` of its basic-mutation count and length |
| Estimator.AsEstimated | psudohash.py:389-400 | the estimator ignores `custom_paddings_only`, so it counts "after" padding only with `common_paddings_after` |
| Estimator.DecCarry | psudohash.py:351-361 | `str(w)` never gets shorter from `w` to `w+1`, and gets longer only at a carry from 9… to 1… |
| Estimator.NeighboursDiffer | psudohash.py:358-361 | the stand-in words of two successive iterations never give the same remembered line |
| Estimator.EstimateLevel | psudohash.py:353-364 | one level of the replay counts `2·LevelCount` lines and `LevelSize` bytes and leaves this level's lines remembered |
| Estimator.EstimateWord | psudohash.py:352-366 | one stand-in word counts the same as `WordLines` of a real word |
| Estimator.NumberingEstimate | psudohash.py:345-368 | the numbering replay over `total` stand-in words gives `total` times the per-word numbers |
| Estimator.SepsEstimate | psudohash.py:378-380 | the separator loop adds `basic_total·|years|` times the 4-character-year bytes |
| Estimator.ScaledLengthsPads | psudohash.py:391-392 | the two padding sums together are `basic_total` times the tokens' extra bytes |
| Estimator.CalculateOutput | psudohash.py:334-402 | the count is `KeywordCount` of `basic_total`; with 4-character years the size is `KeywordSize` |
| Estimator.EstimatedAgrees | psudohash.py:389-400 | when `custom_paddings_only` implies "after" padding, the estimator's view gives the same closed form as the engine's |
| Estimator.CustomOnlyUndercounts | psudohash.py:515-517 | with `custom_paddings_only`, "before" padding, no "after" flag and some token, the estimate is below the lines written |
| Driver.KeywordOutputMatches | psudohash.py:469-524 | under the exactness conditions a keyword's written lines and bytes equal what `calculate_output` announces for it |
| Driver.EstimateAll | psudohash.py:467-472 | the totals are the sums of the per-keyword estimates |
| Driver.AllRunNext | psudohash.py:487-488 | no keyword up to `j` raises IndexError exactly when none before `j` does and keyword `j` does not |
| Driver.WriteAll | psudohash.py:487-524 | `ok` exactly when no keyword raises IndexError. The keywords before the first failing one (all of them when `ok`) have their deduplicated basic mutations, and the output grows by exactly their `KeywordLines`, keyword after keyword. Under the exactness conditions it is always `ok` and the output grows by the announced count and size |
| Driver.WriteKeyword | psudohash.py:487-524 | one keyword of the writing loop: `ok` exactly when it raises no IndexError; then its basic mutations are recorded and its `KeywordLines` follow the earlier keywords' lines; otherwise nothing is written |
| Driver.Run | psudohash.py:454-524 | no keywords: nothing happens; no consent: nothing is written; `Failed` exactly when, with consent, some keyword raises IndexError. With consent the wordlist holds exactly the `KeywordLines` of every keyword before the failing one, or of all keywords when `Completed`. Under the exactness conditions it is `Completed` with exactly the announced lines and bytes |
| Validation.KeptSound | psudohash.py:110-114 | every kept keyword is a non-empty stripped piece |
| Validation.KeptComplete | psudohash.py:110-114 | every non-empty stripped piece is kept |
| Validation.AnyDigitOnlyIs | psudohash.py:112 | the recursive check finds a digit-only piece exactly when one exists |
| Validation.KeepKeywords | psudohash.py:110-114 | error exactly when some stripped piece is digit-only; otherwise the stripped non-empty pieces in order |
| Validation.ParseKeywords | psudohash.py:108-114 | `-w`: error iff a digit-only piece; every keyword is a stripped, non-empty, not digit-only piece, and every non-empty piece is kept |
| Validation.ResolveNumbering | psudohash.py:116-122 | error exactly for `-nl` without a truthy `-an`, or a negative level; otherwise the given values or the defaults 1 and 50 |
| Validation.LevelZeroAccepted | psudohash.py:120-122 | `-an 0` passes validation and gives level 0 (numbering off) |
| Validation.YearDigits | psudohash.py:141-142 | a year in 1000..3200 renders as four decimal digits with that value |
| Validation.YearRange | psudohash.py:141-142 | `range(a, b+1)` gives `b-a+1` consecutive four-digit years, ascending |
| Validation.YearList | psudohash.py:132-137 | the comma form succeeds exactly when every piece is a year in range, and returns the pieces |
| Validation.YearSpan | psudohash.py:138-144 | the `a-b` form succeeds exactly when both ends are decimal with `1000 <= a < b <= 3200`, and yields the years from `a` to `b` |
| Validation.ParseYears | psudohash.py:124-148 | `-y`: every accepted year is decimal within 1000..3200; single, comma and range forms as above; every other form is an error |
| Validation.AppendPaddings | psudohash.py:168-171 | each non-blank `-ap` value not yet present is added, and no duplicate is introduced |
| Validation.AssemblePaddings | psudohash.py:150-174 | which flag combinations are errors, and with a padding side the list is duplicate-free with exactly the file's stripped lines (unless custom-only) and the `-ap` values |
| Text.SplitJoin | psudohash.py:110 | joining the pieces of `split` with the separator gives the string back |
| Text.SplitNoSep | psudohash.py:110 | no piece of `split` contains the separator |
| Text.Split | psudohash.py:110 | `split` gives one piece more than the separator count |
| Text.Strip | psudohash.py:111 | `strip()` leaves no whitespace at either end, and leaves a stripped string alone |
| Text.StripIsTrim | psudohash.py:111 | `strip()` keeps one contiguous slice of the string and cuts only whitespace before and after it |
| Text.ZFillValue | psudohash.py:279 | `zfill` keeps a decimal string decimal with the same value |
| Text.DecValue | psudohash.py:141-142 | `str(n)` is decimal, has value `n`, and has no leading zero |
| Text.ZFillShape | psudohash.py:279 | `zfill` pads on the left with zeros up to the width and keeps the string whole |
| Text.ZFillSame | psudohash.py:283 | padding to two widths gives the same string exactly when the string is at least as wide as the larger width |
| Text.CasesDiffer | psudohash.py:256 | the two cases of a character differ exactly when it is a letter |

## Left out

- The banner, the colour constants, argparse setup, the help text and `exit_with_msg`'s printing and exit. A failed check becomes a `Validation.Error` value naming the message.
- The config-module import and the `Namespace` merging. `Settings.Config` holds the resolved options, and `Settings.DefaultTable`, `DefaultYearSeparators`, `DefaultNumberingLimit` and `DefaultNumberingLevel` record the defaults. `-nt` is the empty table.
- File I/O. The padding file's lines are a parameter of `AssemblePaddings`, and `None` stands for the missing file. The wordlist is the `out` field: the lines written, each to be followed by one `'\n'`. The output-file open and truncate is the reset of `out` in `Driver.Run`.
- The consent prompt. Its answer is the `agree` parameter of `Driver.Run`.
- The MB/bytes formatting with float division and `round`: floating point.
- The order that `list(set(...))` produces. `Lines.Dedup` picks some duplicate-free order, and contracts speak of the set of values.
- Unicode. Character classes, case mapping and `strip` are modelled on ASCII; other characters are treated as non-letters and non-space.
- The `isinstance(trans, list)` else-branch of `mutate`. Table values are always lists here.
- Table keys that are not single characters. A config file can give any string as a key. For an empty key, or a key such as `'ab'` on a keyword holding "ab" and no one-character key, `check_mutability` is positive while `calculate_transformations` records no index. `mutations_handler` then raises UnboundLocalError at `container.append(results)`. Here a key is one character (`Settings.Table`), so a positive mutability always comes with an index (`Transformations.MutabilityIffKeyIndex`).
- `int(end_year)` on a non-decimal end raising an exception. It is modelled as the same `IllegalYears` error as the explicit check.
- `check_underscore` on an empty token (an `IndexError` in the program). The padding stages require non-empty tokens (`Paddings.NonEmpty`).
- Progress messages and the final "Completed" message.
- Engine.Generator.DoAppendNumbering: the written lines are stated only when the basic mutations are distinct and of one length. Under a simple table that always holds (`Coverage.BasicCount`). Otherwise the remembered-line comparison depends on the words' contents, and no closed form is given.
- Engine.Generator.NumberLevel, Engine.Generator.NumberWord: the written lines, and for `NumberWord` that none repeats, are stated only when the remembered list is consistent with this word and level. It always is when `DoAppendNumbering` runs on distinct words of one length.
- Engine.Generator.StagesAfterBasic, Engine.Generator.ProcessKeyword, Driver.WriteAll, Driver.Run: the lines after the basic mutations are stated only for distinct basic mutations of one length (for the driver: every keyword's, `Driver.AllSameLength`). Under a simple table this always holds (`Coverage.BasicCount`).
- Estimator.CalculateOutput: the size is stated only for four-character years. For other years it hard-codes 4 and 2 characters, and its size is then not the output's.
- Driver.Run, Driver.WriteAll: equality of the announced and written line counts and sizes is stated only under `Settings.EstimateExact`. `Estimator.CustomOnlyUndercounts` shows one way it fails otherwise.
- Driver.EstimateAll: the size is stated only for four-character years, as for `CalculateOutput`.
- Engine.Generator.MutationsHandler, Engine.Generator.CaseMutationsHandler: the written order of the deduplicated list is left open, as in the program.
