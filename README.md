# redis-memory-analysis: the analysis core, in Dafny

This project models the analysis loop of the redis-memory-analysis tool
(`analysis_connection.go`). The tool asks a Redis server for its keyspace
section (`INFO keyspace`) and learns from it which databases exist. For each
database it then:

- scans the keys;
- asks `DEBUG OBJECT` for each key's serialized length;
- folds every key into a *group*: the key up to the last occurrence of
  the delimiter found by Go's left-to-right, non-overlapping scan, plus
  `*`. For a delimiter that cannot overlap itself, such as `:`, that is
  its last occurrence (`user:1001:profile` becomes `user:1001:*`);
- sums each group's count and size;
- stores the groups as a slice sorted by size.

A unit ladder (`HumanSize`) picks the unit in which a size is reported.

The modules follow the program's structure:

- `GoStrings`, `GoStrconv`: the Go library calls the core depends on.
  - `strings.Index`, `Split`, `Join` and `Trim` with a one-byte cut set.
  - `strconv.ParseUint` and `ParseInt`, base 10, 64 bits. Each returns the
    value and the error kind the way Go does: 0 after a syntax error, the
    clamped extreme after a range error.
- `KeyGrouping`: the delimiter loop with its early `break`.
- `KeySize`: reading the size from the introspection reply.
- `Aggregation`: the key loop, the group map, and the copy into a slice.
- `ReportSort`: the in-place sort of that slice.
- `Keyspace`: `GetDatabases`.
- `HumanSize`: the unit ladder, including how `float64(b)` rounds.
- `Analysis`: `Start`, with the global report map as the field of a class.

Loops of the source are methods proved against specification functions:

| method | specification |
|---|---|
| `GroupKeyOf` | `Grouped` |
| `AggregateKeys` | `Aggregate` of `Observations` |
| `GetDatabases` | `Databases` |
| `HumanSize` | `UnitIndex` of `ToFloat64` |
| `SortBySize` | sorted and a permutation |

Other lemmas prove the properties the code promises about those functions.

Two behaviours of the code are worth stating up front:

- **Out-of-range size field.** An out-of-range size field keeps
  ParseUint's clamped value, 18446744073709551615. Only a failed
  introspection call, or a size field with a syntax error, gives 0.
- **Index panics.** Index expressions that panic in Go become preconditions:
  `debugs[4]`, `items[1]`, `reply[12:]`, `[2:]`, `[5:]` and
  `dbKeysParsed[1]`.

The model exposes one evident defect of the source.

- Every keyspace line after the first still begins with the line feed of
  the `\r\n` before it, so the fixed offset `[2:]` skips `\nd` and parses
  `b1`. The parse fails, so database 1's key count is filed under database
  0, where it overwrites database 0's count.
- `Keyspace.TwoDatabases` proves this for every reply of two databases.
- The model keeps this behaviour because `Start` analyses the databases the
  code actually finds.

## Model

| member | source | states |
|---|---|---|
| GoStrings.Index | analysis_connection.go:69 | strings.Index: -1 exactly when the separator does not occur, otherwise the first position where it occurs |
| GoStrings.Split | analysis_connection.go:69 | strings.Split always yields at least one piece |
| GoStrings.SplitMoreThanOne | analysis_connection.go:70 | the split has more than one piece exactly when the delimiter occurs in the key |
| GoStrings.JoinSplit | analysis_connection.go:71 | joining the pieces of a split with the same separator gives back the string |
| GoStrings.SplitLastIsFree | analysis_connection.go:71 | the last piece of a split holds no occurrence of the separator |
| GoStrings.Join | analysis_connection.go:71 | strings.Join: the joined text starts with the first piece |
| GoStrings.JoinSnoc | analysis_connection.go:71 | joining n >= 2 pieces is joining the first n-1, then the separator, then the last piece |
| GoStrings.TrimChar | analysis_connection.go:149 | strings.Trim with a one-byte cut set: the result is the input with its leading and trailing cut bytes removed: it follows the leading run of cut bytes, only cut bytes come after it, and it neither starts nor ends with the cut byte |
| GoStrconv.ParseUint | analysis_connection.go:81-87 | strconv.ParseUint stays within 0..MaxUint64; a result without error comes only from non-empty all-digit text and is its value; a syntax error gives 0 and a range error MaxUint64 |
| GoStrconv.ScanDigits | analysis_connection.go:87 | the digit scan stays within 0..MaxUint64, gives 0 on a syntax error and MaxUint64 on a range error, and succeeds only on all-digit text, with its value |
| GoStrconv.ParseInt | analysis_connection.go:160 | ParseInt stays within the signed 64-bit range; a syntax error gives 0, a range error the clamped MaxInt64 or MinInt64, and a clean parse the signed value of the digits after an optional sign |
| GoStrconv.ParseUintDecimal | analysis_connection.go:87 | ParseUint reads back every 64-bit value from its decimal text |
| GoStrconv.ParseIntDecimal | analysis_connection.go:160 | ParseInt reads back every non-negative signed 64-bit value from its decimal text |
| GoStrconv.ScanAllDigits | analysis_connection.go:87 | on all-digit text, the scan gives the value when it fits in 64 bits and (MaxUint64, range error) when it does not |
| GoStrconv.ScanNonDigit | analysis_connection.go:87 | text holding a non-digit never parses without an error |
| GoStrconv.ScanBadFirst | analysis_connection.go:159 | text whose first character is not a digit parses as 0 with a syntax error |
| KeyGrouping.GroupKeyOf | analysis_connection.go:68-76 | the delimiter loop with its break computes `Grouped` of the key, the delimiters and the previous group key |
| KeyGrouping.GroupedFirstMatch | analysis_connection.go:68-72 | the first delimiter that occurs in the key decides the group; later delimiters are not consulted |
| KeyGrouping.GroupedNoMatch | analysis_connection.go:66-76 | when no delimiter occurs, the group is the key itself; with no delimiters at all, the previous value (initially "") is kept |
| KeyGrouping.GroupedIgnoresPrior | analysis_connection.go:66-76 | with at least one delimiter, the group does not depend on the previous key's group |
| KeyGrouping.WildcardGroupCutsKey | analysis_connection.go:69-71 | the wildcard group is the key cut right after an occurrence of the delimiter, namely the last one found by Go's left-to-right, non-overlapping scan, after which the delimiter no longer occurs; then `*` |
| KeyGrouping.WildcardGroupCutsAtLast | analysis_connection.go:69-71 | for a delimiter that cannot overlap itself, such as `:`, that cut follows the last occurrence of the delimiter in the key |
| KeyGrouping.GroupedThreeParts | analysis_connection.go:69-71 | a key `a:b:c` of delimiter-free parts falls into group `a:b:*` |
| KeyGrouping.GroupedExampleWildcard | analysis_connection.go:69-71 | `user:1001:profile` with `:` belongs to `user:1001:*` |
| KeyGrouping.GroupedExampleSingleton | analysis_connection.go:73-75 | `singleton` with `:` is its own group |
| KeySize.KeySizeOf | analysis_connection.go:81-88 | a key's size is at most MaxUint64; it is 0 when the call failed or the field has a syntax error, and MaxUint64 when the field overflows |
| KeySize.KeySizeReadsSerializedLength | analysis_connection.go:85-87 | a reply whose fifth field is `name:<n>` gives exactly n |
| KeySize.KeySizeNotANumber | analysis_connection.go:87 | an empty size field, or one that starts with a non-digit, gives 0 |
| Aggregation.Observations | analysis_connection.go:67-88 | one observation per scanned key |
| Aggregation.ObservationAt | analysis_connection.go:67-88 | the i-th observation is the group and the size of the i-th key |
| Aggregation.Observe | analysis_connection.go:90-98 | one key changes only its own group: count +1 and size + the key's size, or a new group `Report{g, 1, size, 0, 0}` |
| Aggregation.AggregateKeys | analysis_connection.go:66-99 | the key loop builds exactly `Aggregate` of the keys' observations |
| Aggregation.AggregateGroup | analysis_connection.go:90-98 | a group exists exactly when some key fell into it; its report holds that many keys (so at least one) and the sum of their sizes |
| Aggregation.AggregateConserves | analysis_connection.go:90-98 | the counts of all groups add up to the number of keys, and their sizes to the sum of the key sizes |
| Aggregation.CollectReports | analysis_connection.go:102-105 | the slice holds every group of the map exactly once and nothing else |
| Aggregation.ExactlyOnceSum | analysis_connection.go:102-105 | a slice holding every group once adds up to the sum over the map |
| Aggregation.ReportRows | analysis_connection.go:90-105 | in the slice, counts add up to the number of keys and sizes to the total size; every row has at least one key and its group's exact size |
| ReportSort.InsertLast | analysis_connection.go:106 | one insertion step extends the sorted prefix by one element, keeps the rest, and keeps the multiset |
| ReportSort.SortBySize | analysis_connection.go:106 | the slice ends up ordered by size, largest first, and is a permutation of its old contents |
| Keyspace.KeyspaceLines | analysis_connection.go:149-150 | the header is dropped, line feeds are trimmed, and the text is split on carriage returns into at least one line |
| Keyspace.LineDbNo | analysis_connection.go:158-159 | the database number is an unsigned 64-bit value |
| Keyspace.LineKeyCount | analysis_connection.go:160 | the key count is a signed 64-bit value |
| Keyspace.GetDatabases | analysis_connection.go:145-164 | the parsing loop builds exactly `Databases` of the keyspace lines |
| Keyspace.DatabasesKeys | analysis_connection.go:152-162 | a database number is in the map exactly when some line that is read names it |
| Keyspace.DatabasesLastLineWins | analysis_connection.go:152-162 | the last line that names a database number decides its key count |
| Keyspace.EntryLineReadBack | analysis_connection.go:153-161 | a line `db<n>:keys=<k>,...` is read as database n with k keys |
| Keyspace.EntryAfterLineFeedIsDbZero | analysis_connection.go:149-161 | the same line after a line feed is read as database 0 with k keys |
| Keyspace.KeyspaceOfTwo | analysis_connection.go:149-150 | a two-line reply splits into the first line, the second line behind a line feed, and an empty line |
| Keyspace.DatabasesOfThree | analysis_connection.go:152-162 | two read lines and one skipped line write their two entries in order |
| Keyspace.TwoDatabases | analysis_connection.go:148-163 | for two databases n0 and n1, the map is {n0: k0} updated with {0: k1} |
| HumanSize.Truncate | analysis_connection.go:168 | float64(b) keeps at most 53 significant bits: b = q·ulp + rem with q < 2^53, rem < ulp and ulp a power of two; below 2^53 nothing is cut, and above it the mantissa is normalised to exactly 53 bits (q >= 2^52) |
| HumanSize.ToFloat64 | analysis_connection.go:168 | float64(b) rounds to nearest, ties to even: the result is one of the two multiples of the last-place unit around b, at most half a unit away, and on a tie the one with the even mantissa; it is exact below 2^53 and keeps at most 2^53 units |
| HumanSize.ToFloat64Max | analysis_connection.go:168 | every 64-bit count converts to at most 2^64 |
| HumanSize.UnitIndex | analysis_connection.go:170-172 | the number of loop turns is 0 below 1024, and otherwise the largest i with 1024^i <= x |
| HumanSize.UnitIndexBelow | analysis_connection.go:170-172 | a value below 1024^(k+1) gets an index of at most k |
| HumanSize.UnitIndexAtLeast | analysis_connection.go:170-172 | a value of at least 1024^k gets an index of at least k |
| HumanSize.UnitIndexInTable | analysis_connection.go:167-174 | every 64-bit count gets an index below the 7 units of the table |
| HumanSize.ScaledAtLeast1024 | analysis_connection.go:170-171 | after i exact divisions the value is at least 1024 exactly when 1024^(i+1) <= the converted count |
| HumanSize.RoundsUpToPowerOfTwo | analysis_connection.go:168 | a count of 53 + k one bits (k >= 1) converts to the next power of two |
| HumanSize.RoundingBumpsUnit | analysis_connection.go:168-174 | when 1024^j = 2^(53+k) with k >= 1, the count 1024^j - 1 converts to 1024^j, so the loop reports unit j where the count's own unit is j - 1 |
| HumanSize.EBJustBelow | analysis_connection.go:168-174 | the count 2^60 - 1, whose own unit is 5 (PB), is reported in unit 6 (EB) |
| HumanSize.SixthPower | analysis_connection.go:167 | 1024^6 = 2^53 · 2^7 |
| HumanSize.HumanSize | analysis_connection.go:166-175 | the loop stops at the unit index of float64(b), which is within the table; it returns the unit's name and the scaled value, which lies below 1024 |
| Analysis.ReportSet.AnalyzeDatabase | analysis_connection.go:57-108 | one database's report is replaced by its groups, sorted by size, each exactly once; other databases' reports are unchanged |
| Analysis.ReportSet.AnalyzeNext | analysis_connection.go:55-109 | one turn of the database loop adds one more database to the reported ones and touches no other |
| Analysis.ReportSet.Start | analysis_connection.go:42-110 | after the analysis, every database the keyspace parser finds in the reply has its report and no other report changed |

## Left out

- The connection (`Connection`, `Close`): a network client that ends the program on failure.
- The server calls (`Scan`, `DebugObject`, `Info`) become parameters.
  - The `INFO keyspace` reply is a string.
  - The scan is a function from database and key count to a key list.
  - The introspection call is a function from key to reply or failure.
- Scan semantics: the database number is passed as the scan cursor, and the key list is taken as given.
- `SaveReports`: it creates a directory and writes CSV files through a storage package that is not part of this model, using `%0.3f` formatting.
- HumanSize.HumanSize: returns the scaled value before its rounding to three decimals (`Sprintf`/`ParseFloat`). The scaled value is a `real`, because dividing a float by 1024 is exact in this range.
- Logging with `fmt.Println` and the ignored scan error.
- Aggregation.Observe: sizes and counts are unbounded naturals. The uint64 wrap-around of a group's summed size is not modelled.
- ReportSort.SortBySize: the comparator of the report slice type is not part of this model.
  - Largest size first is assumed.
  - The order of equal sizes, which `sort.Sort` does not fix, is left open; any insertion order is allowed.
  - The sort is an insertion sort, not Go's pdqsort; only its result is specified.
- Map iteration order: the copy into the slice and the loop over the databases take the entries in any order, and only the resulting set is specified.
- Empty delimiters: `strings.Split` with an empty separator splits into UTF-8 runes; every delimiter is required to be non-empty.
- Strings are sequences of characters, one character per byte; no UTF-8 decoding.
