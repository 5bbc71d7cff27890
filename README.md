# ExecCheck core, modelled in Dafny

ExecCheck reads the macOS ExecPolicy database and joins three of its tables:
executable measurements, the policy scan cache and provenance tracking. It
scores each joined record for risk, translates its numeric codes into labels,
matches its fields against a list of indicators of compromise (IOCs), and
renders the result as a table or a CSV file. This project models the
data logic of ExecCheck in Dafny and proves properties of that model. The
database, network, configuration and terminal layers are not modelled.

Modules, one per source file:

- `Values` (values.dfy): a record is a `map<string, Value>`, the Python
  dictionary a row becomes. `Value` covers `None`, strings, integers,
  booleans and lists of strings. Python truthiness and `dict.get` with a
  `None` default are modelled here.
- `Text` (text.dfy): `str.strip()` over Python's full whitespace set,
  `str.lower()` on ASCII letters, and `", ".join`.
- `Numerals` (numerals.dfy) covers:
  - decimal text, as in `str(int)`;
  - `hex()` and `int(text, 16)`;
  - the decimal-digit test `str.isdigit` and `int(text)`;
  - bitwise `&` on naturals.
- `Translate` (execcheck/translate.py):
  - the two code-to-label tables;
  - the scan-flag decoder, a method with eight sequential bit tests, proved
    against a specification function.
- `Combine` (execcheck/combine.py:24-87): the three-way correlation join.
  - `BuildIndex` fills a `defaultdict(list)` index by an append loop.
  - `CombineTables` builds one merged record per key of the union of the
    three indexes.
  - `MergeRecord` builds each record by assigning fields one at a time.
- `Scorer` (execcheck/scorer.py): `score_entry`.
  - A method keeps the running score and trace through four guarded rules
    and the bitmask loop.
  - It is proved against `Firings`, the list of rules that fire.
- `Cli` (execcheck/cli.py):
  - `load_iocs` over the lines of the file, and `match_iocs` over a
    record's items;
  - the `--only-ioc-matches` filter and the descending sort by `risk_score`;
  - the low/med/high tier filter.
- `Formatter` (execcheck/formatter.py):
  - `truncate` and the colour tiers;
  - the cell text of a table row;
  - the CSV column order.

Where the source iterates over a Python set, the model loops with `:|`, so
the loop may take the elements in any order. This happens at
execcheck/combine.py:55, execcheck/cli.py:37 and execcheck/formatter.py:107.
As a result, every property about the join, the IOC matcher and the CSV
columns holds for any iteration order.

Where the code and the design description of the system disagree, the
model follows the code:

- The VirusTotal rule fires whenever the entry says malicious, even with a
  zero weight. The design says only rules with a non-zero weight fire.
  `Scorer.VirusTotalIgnoresWeight` states the code's behaviour.
- `list.sort` is stable, so records with equal scores keep their order. The
  design leaves the tie order open. `Cli.SortByRiskCorrect` proves
  stability.
- A boolean `scan_flags` is an `int` to Python, so `True` is tested as the
  bitmask 1. The design says non-integer flags count as zero.

The weights of the scorer samples are 5, 3, 7 and 10, with masks
{0x2000: 4, 0x800: 2}. They come from the sample configuration in
execcheck/init_config.py:9-16. The tests' `make_config` is not part of this
model.

## Model

| member | source | states |
|---|---|---|
| Text.TrimStartSuffix | execcheck/combine.py:29 | the leading-whitespace trim keeps the longest suffix that does not start with whitespace, and everything dropped is whitespace |
| Text.TrimEndPrefix | execcheck/combine.py:29 | the trailing-whitespace trim keeps the longest prefix that does not end with whitespace, and everything dropped is whitespace |
| Text.Strip | execcheck/cli.py:23 | `str.strip()` as leading then trailing whitespace removal; proved by `Text.TrimStartSuffix`, `Text.TrimEndPrefix` and `Text.StripEnds` |
| Text.StripEnds | execcheck/combine.py:29 | what `strip()` returns is empty or neither starts nor ends with whitespace |
| Text.Lower | execcheck/combine.py:29 | `lower()` keeps the length and lower-cases each character in place |
| Text.Normalise | execcheck/cli.py:23 | the `strip().lower()` normal form of keys and IOCs; proved idempotent by `Text.NormaliseIdempotent` |
| Text.NormaliseIdempotent | execcheck/cli.py:23 | strip-then-lower applied twice gives the same result as applied once |
| Text.StripFixed | execcheck/cli.py:23 | a string that neither starts nor ends with whitespace is unchanged by strip |
| Text.LowerIdempotent | execcheck/cli.py:23 | lower-casing twice is the same as lower-casing once |
| Text.Join | execcheck/formatter.py:74 | `", ".join(...)`: the parts with the separator between each two neighbours; proved by the `Text.Join*` lemmas |
| Text.JoinSingle | execcheck/formatter.py:74 | joining a single string gives that string |
| Text.JoinSnoc | execcheck/formatter.py:74 | joining one more string appends the separator and that string |
| Text.JoinLength | execcheck/formatter.py:74 | the joined length is the summed lengths of the parts plus one separator per neighbouring pair |
| Text.JoinStartsWithFirst | execcheck/formatter.py:74 | the joined string starts with the first part |
| Numerals.DigitsOf | execcheck/scorer.py:14 | the digits of a number are non-empty hex digits below the base, with no leading zero |
| Numerals.DigitsRoundTrip | execcheck/scorer.py:14 | reading back the digits of n gives n |
| Numerals.Decimal | execcheck/scorer.py:14 | `str(i)` is non-empty, all decimal digits for i >= 0, and starts with '-' for i < 0 |
| Numerals.DecimalRoundTrip | execcheck/formatter.py:56-57 | `str(n)` passes `isdigit()`, and `int()` of it gives n back |
| Numerals.Hex | execcheck/scorer.py:43 | `hex(n)` starts with "0x" and has at least one digit |
| Numerals.ParseHex | execcheck/scorer.py:40 | `int(bitmask_hex, 16)` for text with an optional "0x" prefix and hex digits; `Numerals.HexRoundTrip` proves it inverts `hex` |
| Numerals.HexRoundTrip | execcheck/scorer.py:40 | `int(hex(n), 16) == n` |
| Numerals.And | execcheck/scorer.py:41 | `a & b` is at most a and at most b |
| Numerals.AndCommutes | execcheck/scorer.py:41 | `a & b == b & a` |
| Numerals.AndAssociates | execcheck/scorer.py:41 | `(a & b) & c == a & (b & c)` |
| Numerals.AndThroughMask | execcheck/translate.py:41-56 | masking with m and then with a sub-mask of m is the same as masking with the sub-mask |
| Numerals.AndPow2 | execcheck/translate.py:41-56 | `v & 2**k` is 2**k when bit k of v is set, and 0 otherwise |
| Numerals.AndBit | execcheck/translate.py:41-56 | bit k of `a & b` is set iff it is set in both a and b |
| Numerals.ZeroHasNoBits | execcheck/translate.py:38-39 | 0 has no set bit |
| Translate.MalwareResultLabel | execcheck/translate.py:4-18 | total: "Unknown" exactly for codes outside the ten listed ones, and otherwise a label of the table; booleans look up as 0 and 1 |
| Translate.PolicyMatchLabel | execcheck/translate.py:20-32 | total: "Unmapped" exactly outside 0..7; "Override" exactly for code 3; never "Override: Block" |
| Translate.LabelsIdentifyCodes | execcheck/translate.py:4-32 | no two codes of either table share a label |
| Translate.FlagBit | execcheck/translate.py:41-56 | each of the eight table masks is a single power of two |
| Translate.DecodeSpec | execcheck/translate.py:34-57 | "missing" for None, "no flags" for 0, else the names of the known flags whose mask meets the value, in table order; `Translate.DecodeFlags` is proved to compute it, `Translate.DecodeListsSetBits` states its contents |
| Translate.DecodeFlags | execcheck/translate.py:34-57 | the eight sequential tests give "missing" for None, "no flags" for 0, and otherwise the names of the set table bits in table order |
| Translate.FlagNamesDistinct | execcheck/translate.py:41-56 | the eight flag names are pairwise different |
| Translate.NamesUpToMembers | execcheck/translate.py:40-57 | after the first n tests, a flag's name is listed iff its mask meets the value, and only flag names are listed |
| Translate.NamesUpToFlags | execcheck/translate.py:40-57 | after the first n tests, a flag's name is listed iff its mask meets the value |
| Translate.NamesUpToNames | execcheck/translate.py:40-57 | after the first n tests, every listed name is one of the first n flag names |
| Translate.NamesUpToDistinct | execcheck/translate.py:40-57 | no name is listed twice |
| Translate.DecodeListsSetBits | execcheck/translate.py:38-57 | for a non-zero value the result is a list naming exactly the table flags whose bit is set, each once |
| Translate.FlagMaskReadsBit | execcheck/translate.py:41-56 | a flag's test `v & mask` is non-zero iff the flag's bit is set |
| Translate.KnownBitsCoverFlags | execcheck/translate.py:41-56 | every table bit is inside 0x65F |
| Translate.NamesUpToKnownBits | execcheck/translate.py:40-57 | the names depend only on `v & 0x65F` |
| Translate.NoNamesForZero | execcheck/translate.py:40-57 | no test fires on 0 |
| Translate.DecodeIgnoresUnknownBits | execcheck/translate.py:38-57 | non-zero values that agree on 0x65F decode alike, and a non-zero value with no table bit gives the empty list, not "no flags" |
| Translate.DecodeExamples | execcheck/translate.py:36-57 | None gives "missing", 0 gives "no flags", 0x004 gives ["fScanUserApproved"], and 0x800 gives [] |
| Translate.NamesUpToUnchanged | execcheck/translate.py:40-57 | flags whose masks miss the value add nothing to the name list |
| Translate.OneFlagNames | execcheck/translate.py:40-57 | 0x004 yields exactly ["fScanUserApproved"] |
| Translate.HighFlagNames | execcheck/translate.py:40-57 | 0x800, outside every known mask, yields no names |
| Translate.OneBitExample | execcheck/translate.py:45-46 | 0x004 carries the bit of the third table flag only |
| Translate.HighBitExample | execcheck/translate.py:41-56 | 0x800 carries no table bit |
| Combine.BuildIndex | execcheck/combine.py:24-50 | the append loop builds an index whose keys are those of the records, and whose list under each key is `Hits`: each record appended once per identifier equal to that key, in input order |
| Combine.IndexStep | execcheck/combine.py:29-34 | one loop iteration adds exactly the record's non-empty identifiers as keys and appends the record under each |
| Combine.PrefixStep | execcheck/combine.py:28-34 | indexing one more record extends the key set by its keys and each list by its occurrences |
| Combine.CorrelationType | execcheck/combine.py:78-82 | "strong" iff measurement and scan; "weak" iff not strong and a scan or provenance; "orphan" iff neither scan nor provenance |
| Combine.MergedRow | execcheck/combine.py:60-83 | the record emitted for a key: the first measurement, overwritten by the nine fields of the first scan and provenance records, the correlation type and the key; its contents are proved by `Combine.MergedRowKeys` and the `Combine.Merged*Fields` lemmas |
| Combine.MergedRowKeys | execcheck/combine.py:60-83 | the merged record has the first measurement's fields plus the eleven set fields; other measurement fields keep their values; `correlated_from` is the key |
| Combine.MergeRecord | execcheck/combine.py:56-83 | the field-by-field assignments build exactly `MergedRow` |
| Combine.CombineTables | execcheck/combine.py:24-87 | one record per key of the union of the three indexes, so the count equals the union's size; the keys are distinct; each record is merged from the three full lists under its key |
| Combine.JoinStep | execcheck/combine.py:55-85 | appending the record of a new key keeps the join invariant |
| Combine.JoinResult | execcheck/combine.py:52-87 | at the end of the loop, the join invariant gives the properties of `CombineTables` |
| Combine.JoinRowsMerged | execcheck/combine.py:55-85 | each emitted record is merged from the lists the indexes hold under its key |
| Combine.JoinKeys | execcheck/combine.py:52-85 | the emitted records carry distinct keys, exactly the keys visited |
| Combine.HitsConcat | execcheck/combine.py:28-34 | indexing a + b lists a's records before b's, since entries are only ever appended |
| Combine.DoubleIndexing | execcheck/combine.py:31-34 | a record whose two identifiers normalise alike is listed twice under that key; with different identifiers it is listed once under each |
| Combine.HitsMembers | execcheck/combine.py:28-34 | a record is in the list under k iff it is an input record with k among its keys |
| Combine.HitsComplete | execcheck/combine.py:28-34 | every input record with key k is in the list under k |
| Combine.HitsSound | execcheck/combine.py:28-34 | only input records with key k are in the list under k |
| Combine.OccFacts | execcheck/combine.py:31-34 | indexing one record appends only that record, and appends it iff it has the key |
| Combine.FieldKey | execcheck/combine.py:29-30 | `(row.get(field) or "").strip().lower()`: a string identifier is normalised, a missing or falsy one reads as ""; its instances are proved by `Combine.SampleKeys` and its fixed point by `Text.NormaliseIdempotent` |
| Combine.KeySetMembers | execcheck/combine.py:28-52 | the index keys are exactly the non-empty normalised identifiers, each already in normal form and with a non-empty list |
| Combine.HitsStartWithFirstMatch | execcheck/combine.py:60-62 | the first record of a list is the first input record that has the key |
| Combine.FirstHitInFront | execcheck/combine.py:28-34 | indexing one more record leaves an earlier first match in front |
| Combine.FirstHitIsLast | execcheck/combine.py:28-34 | when no earlier record has the key, the newly indexed record heads its list |
| Combine.MergedScanFields | execcheck/combine.py:61-70 | scan_flags, malware_result and policy_match come from the first scan record, or are None without one |
| Combine.MergedScanTimes | execcheck/combine.py:61-73 | scan_timestamp, revocation_check_time and volume_uuid come from the first scan record, or are None without one |
| Combine.MergedProvenanceFields | execcheck/combine.py:62-82 | origin_url, provenance_flags and provenance_timestamp come from the first provenance record, or are None without one; the correlation type follows which lists are non-empty |
| Combine.MergedFieldsFromFirst | execcheck/combine.py:60-82 | the nine scan and provenance fields come from the first scan or provenance record, or are None when there is none; the correlation type follows which lists are non-empty |
| Combine.MixedCaseKeysMeet | execcheck/combine.py:29-79 | "ABC " and "abc" meet under one key "abc" and join as one strong record |
| Combine.SampleKeys | execcheck/combine.py:29-30 | "ABC " and "abc" both normalise to "abc", and a missing identifier to "" |
| Scorer.Firings | execcheck/scorer.py:11-43 | the rules that fire for an entry: the four fixed rules in source order, then the mask rules in configuration order when the scan flags are an integer; `Scorer.ScoreEntry` is proved to compute its total and lines, `Scorer.RuleOrder` and `Scorer.FixedRules` state its order and contents |
| Scorer.ScoreEntry | execcheck/scorer.py:4-45 | the score is the sum of the points of the rules that fire, and the trace is one line per firing in firing order |
| Scorer.FixedRuleScore | execcheck/scorer.py:11-33 | the four guarded rules leave the total and the lines of the fixed rules that fire |
| Scorer.Charge | execcheck/scorer.py:12-14 | a rule that fires adds its points and appends `"<rule> (+<points>)"`; one that does not changes nothing |
| Scorer.ApplyMasks | execcheck/scorer.py:38-43 | the mask loop adds the total and the lines of the masks that meet the flags, in configuration order |
| Scorer.RuleStep | execcheck/scorer.py:11-33 | each guarded rule extends the running score and trace by exactly that rule's firing |
| Scorer.LinesMatchFirings | execcheck/scorer.py:14 | the trace has one line per firing, at the same position |
| Scorer.LinesConcat | execcheck/scorer.py:7-43 | the lines of consecutive firings are consecutive |
| Scorer.TotalConcat | execcheck/scorer.py:6-42 | points of consecutive firings add up |
| Scorer.MaskStep | execcheck/scorer.py:39-43 | one mask iteration appends a firing iff `flags & mask != 0` |
| Scorer.RuleRankOf | execcheck/scorer.py:11-33 | fixed rule k has rank k |
| Scorer.FixedOrder | execcheck/scorer.py:11-33 | the fixed rules fire in rank order, each at most once |
| Scorer.FixedMember | execcheck/scorer.py:11-33 | the k-th rule's firing is among the first n iff k < n and the rule fires |
| Scorer.RuleOrder | execcheck/scorer.py:11-43 | unsigned, missing_team_id, override_blocked and vt_malicious come in that order, at most once each, before every mask line |
| Scorer.MaskRulesAreFlagLines | execcheck/scorer.py:43 | every mask firing is labelled "flag ..." |
| Scorer.Rule | execcheck/scorer.py:11-33 | the condition and the firing of each fixed rule: unsigned, missing team id and override need a non-zero weight, vt_malicious does not; proved by `Scorer.FixedRules` |
| Scorer.FixedRules | execcheck/scorer.py:11-33 | each fixed rule fires iff its condition holds and, except vt_malicious, its weight is non-zero; a missing `is_signed` or `team_identifier` counts as false |
| Scorer.VirusTotalIgnoresWeight | execcheck/scorer.py:31-33 | with a zero vt_malicious weight, a malicious entry still gets "vt_malicious (+0)" |
| Scorer.VirusTotalFires | execcheck/scorer.py:31 | the vt_malicious rule fires whenever the entry says malicious |
| Scorer.VirusTotalLine | execcheck/scorer.py:33 | the zero-weight line reads "vt_malicious (+0)" |
| Scorer.FixedRuleFires | execcheck/scorer.py:11-45 | a fixed rule that fires is among all the firings |
| Scorer.LineOfMember | execcheck/scorer.py:14 | every firing has its line in the trace |
| Scorer.MaskFiringsConcat | execcheck/scorer.py:39-43 | masks are tested independently: the firings of a + b are those of a followed by those of b |
| Scorer.OneMask | execcheck/scorer.py:40-43 | one pair fires iff its mask meets the flags |
| Scorer.ScanFlags | execcheck/scorer.py:37-38 | `entry.get("scan_flags", 0) or 0` read as an integer: falsy gives 0, a bool counts as 1, any other non-integer switches the masks off; proved by `Scorer.NoMaskWithoutFlags` |
| Scorer.NoMaskWithoutFlags | execcheck/scorer.py:37-38 | missing, None, false, string or list flags: no mask fires |
| Scorer.NoMaskMeetsZero | execcheck/scorer.py:37-41 | no mask meets flags 0 |
| Scorer.HexKeyMatchesIntKey | execcheck/scorer.py:40 | a mask key written as `hex(n)` acts exactly like the integer n |
| Scorer.OverrideFromTranslatedLabel | execcheck/scorer.py:22-26 | with the label produced by `translate_policy_match`, the override condition holds iff the code is 3 (whether the rule then fires also depends on its weight, see `Scorer.FixedRules`) |
| Scorer.SampleRulesFire | tests/test_scorer.py:15-23 | all four fixed rules fire on the sample entry |
| Scorer.SampleMasksFire | tests/test_scorer.py:22 | both masks fire on 0x2800 |
| Scorer.SampleBits | tests/test_scorer.py:22 | 0x2800 has bits 13 and 11 set |
| Scorer.MasksFire | execcheck/scorer.py:39-43 | two integer masks that both meet the flags both fire, in order |
| Scorer.SampleFirings | tests/test_scorer.py:15-24 | the sample fires the four fixed rules, then both masks |
| Scorer.SampleTotal | tests/test_scorer.py:25 | their points add to 5 + 3 + 7 + 10 + 4 + 2 = 31 |
| Scorer.SampleEveryRule | tests/test_scorer.py:15-28 | score 31, six trace lines, one of them "override_blocked (+7)" |
| Scorer.OverrideLine | tests/test_scorer.py:12 | the override line reads "override_blocked (+7)" |
| Scorer.SampleOverrideBlocked | tests/test_scorer.py:1-12 | a signed entry with a team and label "Override: Block" scores the override weight, with trace ["override_blocked (+7)"] |
| Scorer.SampleNothingFires | execcheck/scorer.py:4-45 | signed, with a team, no override, not malicious, flags 0: score 0, empty trace |
| Scorer.SampleOverrideByCode | execcheck/scorer.py:23-28 | only `policy_match == 3` and weight 7: score 7, trace ["override_blocked (+7)"] |
| Cli.LoadIocs | execcheck/cli.py:17-26 | the loop adds every non-empty stripped, lower-cased line |
| Cli.IocSet | execcheck/cli.py:17-26 | the set of non-empty `strip().lower()` lines of the IOC file; proved by `Cli.IocSetMembers` |
| Cli.IocSetMembers | execcheck/cli.py:20-26 | the IOC set is exactly the non-empty normalised lines |
| Cli.IocSetComplete | execcheck/cli.py:22-25 | every non-empty normalised line is loaded |
| Cli.IocSetSound | execcheck/cli.py:22-25 | only non-empty normalised lines are loaded |
| Cli.IocsAreNormalised | execcheck/cli.py:23 | every IOC is non-empty and already normalised |
| Cli.PairMatches | execcheck/cli.py:32-42 | one item only ever reports its own key |
| Cli.Matches | execcheck/cli.py:28-43 | the keys `match_iocs` reports, in item order: none for None, one per IOC among a list's lowered elements, one for a scalar whose lowered text is an IOC; `Cli.MatchIocs` is proved to compute it, `Cli.MatchCount` gives each key's multiplicity |
| Cli.MatchIocs | execcheck/cli.py:28-43 | the loop reports, in item order, each item's matches: none for None, one per IOC found in a lower-cased list, one for a scalar whose lower-cased text is an IOC |
| Cli.MatchList | execcheck/cli.py:37-39 | the loop over the IOC set appends the key once per IOC in the lower-cased list |
| Cli.MatchesFromRow | execcheck/cli.py:31-43 | every reported key is a key of the record with a non-None value |
| Cli.MatchesConcat | execcheck/cli.py:32-42 | results follow item order |
| Cli.MatchCount | execcheck/cli.py:32-42 | a key is reported as many times as its own item matches |
| Cli.NotMatched | execcheck/cli.py:31-43 | a key that is not in the record is never reported |
| Cli.ScalarMatch | execcheck/cli.py:40-42 | a scalar's key is reported once iff its lower-cased text is an IOC, otherwise never |
| Cli.NullNeverMatches | execcheck/cli.py:33-34 | a None value's key is never reported |
| Cli.ListMatch | execcheck/cli.py:35-39 | a list's key is reported once per IOC among its lower-cased elements |
| Cli.NothingMatchesEmptySet | execcheck/cli.py:128 | with no IOCs nothing matches, so the empty-set shortcut agrees with the matcher |
| Cli.OnlyIocMatches | execcheck/cli.py:134 | the comprehension keeping the records whose `ioc_match` is truthy, in order; proved by `Cli.OnlyIocMatchesKeeps` |
| Cli.OnlyIocMatchesKeeps | execcheck/cli.py:134 | `--only-ioc-matches` keeps exactly the records flagged `ioc_match` |
| Cli.InsertPerm | execcheck/cli.py:140 | inserting one record adds exactly that record |
| Cli.InsertSorted | execcheck/cli.py:140 | inserting into a descending sequence keeps it descending |
| Cli.ConsSorted | execcheck/cli.py:140 | a record scoring at least as high as every record of a descending sequence may be put in front of it |
| Cli.InsertFrom | execcheck/cli.py:140 | the inserted sequence holds only the new record and the old ones |
| Cli.InsertStable | execcheck/cli.py:140 | the inserted record comes first among the records of its score; those keep their order |
| Cli.SortByRisk | execcheck/cli.py:140 | the stable descending sort by `risk_score` (missing reads as 0), built by inserting each record in front of the first one with an equal or lower score; its properties are proved by `Cli.SortByRiskCorrect` |
| Cli.SortByRiskCorrect | execcheck/cli.py:140 | the sort is a permutation in non-increasing `risk_score` order (missing counts as 0), and records of equal score keep their order |
| Cli.DefaultThresholds | execcheck/cli.py:144-146 | without `color_thresholds` the thresholds are 5 and 10 |
| Cli.TierFilter | execcheck/cli.py:148-153 | the `--risk-level` comprehension: `low` keeps scores below yellow, `med` scores in [yellow, red), `high` scores of at least red, and no level keeps every record; proved by `Cli.TierFilterKeeps` |
| Cli.TierFilterKeeps | execcheck/cli.py:148-153 | low keeps score < yellow, med keeps yellow <= score < red, high keeps score >= red, all keeps everything |
| Cli.TierFilterConcat | execcheck/cli.py:148-153 | the filter keeps the surviving records' relative order |
| Cli.TiersPartition | execcheck/cli.py:148-153 | for yellow <= red, every score is in exactly one of low, med and high |
| Formatter.ColumnOrderDistinct | execcheck/formatter.py:12-18 | the five table columns are distinct |
| Formatter.Truncate | execcheck/formatter.py:24-27 | a value no longer than width is kept; a longer one becomes its first width-3 characters plus "...", exactly width long |
| Formatter.TruncateIdempotent | execcheck/formatter.py:24-27 | truncating twice equals truncating once |
| Formatter.TruncateKeepsPrefix | execcheck/formatter.py:24-27 | the kept part is a prefix of the value, followed only by "..." |
| Formatter.ColorFor | execcheck/formatter.py:59-64 | red iff risk >= red; yellow iff not red and risk >= yellow; white otherwise |
| Formatter.ColorMatchesTier | execcheck/formatter.py:59-64 | red, yellow and white are the high, med and low tiers of the filter |
| Formatter.RiskOf | execcheck/formatter.py:55-57 | the risk the colour is chosen from: a missing score reads as 0, an `isdigit()` string as its value, a bool as 0 or 1, anything else cannot be compared; proved by `Formatter.RiskOfScore` and `Formatter.RiskOfDecimalText` |
| Formatter.RiskOfScore | execcheck/formatter.py:55-57 | an integer or missing `risk_score` is read as the sort reads it |
| Formatter.RiskOfDecimalText | execcheck/formatter.py:56-57 | a digit string `risk_score` is read as its number |
| Formatter.CellText | execcheck/formatter.py:68-81 | the text of one cell: "None" for a missing, None or empty value, else the joined and truncated text, wrapped in the row colour unless it already has both brackets; proved by `Formatter.NoneCell`, `Formatter.StyledCell` and `Formatter.CellShape` |
| Formatter.NoneCell | execcheck/formatter.py:68-71 | a cell is the plain text "None" iff the column is missing, None or "" |
| Formatter.StyledCell | execcheck/formatter.py:73-81 | every other cell contains '[' and ']' and its text is at most 50 characters |
| Formatter.CellShape | execcheck/formatter.py:73-81 | a non-empty cell is its truncated text as it is when that text has both brackets, and otherwise that text between `[colour]` and `[/colour]` |
| Formatter.RestyleIsNoOp | execcheck/formatter.py:78-81 | a styled cell of at most 50 characters is left as is when styled again, in any colour |
| Formatter.RenderRow | execcheck/formatter.py:54-81 | one cell per table column, in column order, each styled in the row's colour |
| Formatter.KeyUnion | execcheck/formatter.py:106 | the union of the records' key sets; proved by `Formatter.KeyUnionMembers` |
| Formatter.KeyUnionMembers | execcheck/formatter.py:106 | the key union holds exactly the keys of some record |
| Formatter.PresentColumns | execcheck/formatter.py:107 | the first comprehension, the listed columns that are keys, in list order; proved by `Formatter.PresentColumnsFacts` and `Formatter.PresentColumnsConcat` |
| Formatter.PresentColumnsFacts | execcheck/formatter.py:107 | the present columns are those of the column order that occur, without repeats |
| Formatter.PresentColumnsMembers | execcheck/formatter.py:107 | a column is present exactly when it is in the column order and in the key set, and there are no more present columns than listed ones |
| Formatter.PresentColumnsDistinct | execcheck/formatter.py:107 | a column order without repeats gives present columns without repeats |
| Formatter.PresentColumnsConcat | execcheck/formatter.py:107 | the comprehension keeps column order |
| Formatter.OrderedKeys | execcheck/formatter.py:106-107 | every key of the union exactly once; the present columns come first in column order, then the other keys |
| Formatter.AppendOtherKeys | execcheck/formatter.py:107 | the loop over the key set appends each key outside the column order once |

## Left out

- The SQLite reads (execcheck/combine.py:10-22, execcheck/parser.py): the three tables are inputs. execcheck/correlator.py, an older cdhash-only index, is not part of this model.
- execcheck/vt.py, the VirusTotal lookup over the network: its result is the `vt_malicious` field of the entry.
- The enrichment loop of `main`, which writes the labels, score and trace into each record before matching: the parts it calls are modelled one by one.
- execcheck/config.py and execcheck/init_config.py (YAML and pydantic loading, a file write): the weights are a datatype, and the mask dictionary is a sequence in its iteration order. The vt weight always exists as a field, so the `hasattr` test at execcheck/scorer.py:31 is always true.
- execcheck/utils/time.py (timestamp formatting): not part of this model.
- The Rich table and console output, JSON, NDJSON and CSV file writes, argparse and `print`: the model stops at the cell strings and the CSV column list.
- `is_styled_rich` (execcheck/formatter.py:20-22): it is never called.
- The re-sort inside `output_table` (execcheck/formatter.py:36): it uses the same key as the sort at execcheck/cli.py:140, which is modelled.
- Floats and bytes as field values: not modelled. `str()` of a value covers `None`, strings, integers and booleans only.
- `str.lower()` and `str.isdigit()` beyond ASCII: not modelled.
- Negative integers in bitwise tests: flags and masks are naturals, so `WellFormedEntry` excludes negative `scan_flags`.
- `int(text, 16)` accepts signs and underscores in Python: the model accepts optional whitespace, an optional "0x" or "0X" and hex digits. `ValidWeights` also excludes those, and every other mask string, some of which raise in Python.
- Scorer.ScoreEntry: a label that is a list makes the set test at execcheck/scorer.py:25 raise. `WellFormedEntry` excludes it.
- Combine.CombineTables: a truthy identifier that is not a string makes `.strip()` raise. `AllKeyable` excludes it.
- Cli.OnlyIocMatchesKeeps: records lacking `ioc_match` raise `KeyError`. `AllFlagged` excludes them (the enrichment loop always sets the field).
- Cli.SortByRiskCorrect: a non-integer `risk_score` may not compare. `RiskSortable` excludes it (the enrichment loop always stores an integer).
- Cli.TierFilterKeeps: records lacking an integer `risk_score` raise. `AllScored` excludes them.
- Formatter.RenderRow: a `risk_score` that does not compare with an integer raises. `RiskOf(row).Some?` excludes it.
- `list.sort` works in place: the model is a stable insertion sort over a sequence, so aliasing of the list is not modelled.
- The insertion order of merged record keys (a Python dict keeps it): records are maps, so field order is not modelled.
- The order of the set iterations at execcheck/combine.py:55, execcheck/cli.py:37 and execcheck/formatter.py:107: a `:|` choice, so any order.
- `color_thresholds` is not a field of the configuration, so the table always uses 5 and 10. The model takes the thresholds map as a parameter and proves the defaults.
- Formatter.Truncate: widths below 3 are excluded; Python slices with a negative end there.
