# ByteArray string utilities, performance timer and test-result bookkeeping

This project is a Dafny model of the string core of a C++ robotics
framework, with proofs about it:

- **`ByteArray` in `include/bytearray.h`** (module `ByteArrayStd`). This class
  derives from `std::string`. Its member functions either read the string or
  change it in place and return `*this`. The model has one field, `value`. The
  const members are functions that read it and the mutating members are
  methods that reassign it.
- **`PerformanceUtil` in `include/bytearray.h`** (module `Performance`). It
  keeps a list of millisecond time points, and reports the total duration and
  the intervals between neighbouring points.
- **`leee::ByteArray` in `capability-foundations/leee/bytearray.h`** (module
  `ByteArrayCap`). This is a second ByteArray class, wrapping a private string.
  Its const members return new objects. The first class clamps its slices
  and `remove` and catches conversion errors, though its `insert` still
  throws `std::out_of_range`. This class also lets `std::out_of_range`
  escape from `right`, `mid`, `insert` and `remove`, and
  `std::invalid_argument` from `fromHexString`; the model returns these as
  `Err`/`Thrown` values.
- **Test-result bookkeeping in `test/test_report_generator.cpp`** (module
  `TestReport`). It covers suites of results, the counters each suite keeps,
  and the overall totals the report generators add up.

Both classes are built on the behaviour of the C++ standard library, which
has its own modules:

| module | what it models |
|---|---|
| `StdString` | `std::string` find, rfind, substr, insert, erase and compare |
| `Trimming` | `find_first_not_of` / `find_last_not_of` over `" \t\n\r\f\v"` |
| `SplitJoin` | the split, join, replace and repeat loops |
| `Conversions` | `stoi`/`stol`/`stoul` (via `strtol`/`strtoul`), `to_string`, and the oct/hex ostream |
| `HexCodec` | the hex encoding and its `stoi(pair, nullptr, 16)` decoding |
| `CharClass` / `CaseMap` | the C-locale `isspace` / `tolower` / `toupper` |

Value conventions:

- `npos` returned by find is `None`; `npos` passed in is the constant `NPOS` = 2^64 − 1.
- Integers are unbounded. `int` is 32 bits and `long` is 64 bits (a 64-bit Linux build).
- Doubles (time points, durations) are exact reals.

## Model

| member | source | states |
|---|---|---|
| StdString.Find | include/bytearray.h:937-939 | find returns a position at or after `from` where the pattern occurs |
| StdString.FindFirst | include/bytearray.h:937-939 | the position find returns is the first match: no match lies between `from` and it, and npos means no match at or after `from` |
| StdString.RFind | include/bytearray.h:945-947 | rfind returns a position at or before `from` where the pattern occurs; `from` beyond the string is clamped |
| StdString.RFindLast | include/bytearray.h:945-947 | the position rfind returns is the last match at or before `from`; npos means none at all up to `from` |
| StdString.FindInSuffix | include/bytearray.h:909-920 | searching from `from` gives the same position as searching the suffix from 0, shifted by `from` |
| StdString.Substr | include/bytearray.h:807-815 | substr(pos, len) holds min(len, size − pos) characters of the string, starting at pos |
| StdString.InsertAt | include/bytearray.h:893-896 | insert keeps the prefix, places the text at pos and shifts the rest after it |
| StdString.Erase | include/bytearray.h:886-891 | erase removes min(len, size − pos) characters at pos and keeps the rest |
| StdString.EraseUndoesInsert | include/bytearray.h:886-896 | erasing what was just inserted gives the original string back |
| StdString.Compare | include/bytearray.h:950-961 | compare is −1, 0 or 1, and 0 exactly when the strings are equal |
| StdString.CompareOrder | include/bytearray.h:520-526 | compare is negative exactly when the first string sorts before the second lexicographically (a proper prefix sorting first), and positive exactly when it sorts after |
| StdString.CompareAntisymmetric | include/bytearray.h:950-961 | swapping the operands negates the comparison |
| StdString.CharMatches | include/bytearray.h:932-935 | a one-character pattern matches exactly at the indices holding that character |
| StdString.Copies | include/bytearray.h:963-970 | assign(n, ch) holds n characters, each ch |
| CharClass.ToLowerChar | include/bytearray.h:843-846 | ::tolower changes a character exactly when it is upper case, turning each of 'A'..'Z' into the letter at the same place in 'a'..'z', and leaves no upper-case letter |
| CharClass.ToUpperChar | include/bytearray.h:848-851 | ::toupper changes a character exactly when it is lower case, turning each of 'a'..'z' into the letter at the same place in 'A'..'Z', and leaves no lower-case letter |
| CharClass.ByteChar | include/bytearray.h:1258 | static_cast<char>(v) stores v mod 256 |
| CaseMap.LowerProperties | include/bytearray.h:843-846 | lowering keeps the length, leaves no upper-case letter, keeps every other character, and is idempotent |
| CaseMap.UpperProperties | include/bytearray.h:848-851 | raising keeps the length, leaves no lower-case letter, keeps every other character, and is idempotent |
| CaseMap.CaseExamples | development-tools/test/unit/test_bytearray.cpp:75-83 | "Hello World" lowers to "hello world", "hello world" raises to "HELLO WORLD", and "A" raises to "A" and lowers to "a" |
| CaseMap.LowerOfUpper | include/bytearray.h:950-961 | lower-casing an upper-cased copy equals lower-casing the original, so case-insensitive comparison ignores a prior toupper |
| Trimming.FirstNotSpace | include/bytearray.h:857-865 | find_first_not_of returns a non-space index with only whitespace before it from `from`, or npos when all is whitespace |
| Trimming.LastNotSpace | include/bytearray.h:867-875 | find_last_not_of returns a non-space index with only whitespace after it, or npos when all is whitespace |
| Trimming.TrimLeft | include/bytearray.h:857-865 | trimLeft leaves a suffix that does not start with whitespace, having dropped only whitespace |
| Trimming.TrimRight | include/bytearray.h:867-875 | trimRight leaves a prefix that does not end with whitespace, having dropped only whitespace |
| Trimming.TrimStripsExactly | include/bytearray.h:853-855 | trim's result sits in the string with only whitespace around it, neither starts nor ends with whitespace, and is empty exactly when the string is all whitespace |
| Trimming.TrimIdempotent | include/bytearray.h:853-855 | trimming twice is trimming once |
| Trimming.TrimNoOp | include/bytearray.h:853-855 | a string that neither starts nor ends with whitespace is unchanged by trim |
| Trimming.TrimImplementationsAgree | capability-foundations/leee/bytearray.h:58-63 | the single substr between the first and last non-space equals trimLeft followed by trimRight |
| SplitJoin.SplitOn | include/bytearray.h:909-920 | the split by a non-empty delimiter has at least one part, and no part contains the delimiter |
| SplitJoin.JoinSplit | include/bytearray.h:909-929 | joining the split with the same delimiter rebuilds the string |
| SplitJoin.SplitJoinChar | include/bytearray.h:899-929 | for parts free of the delimiter character, splitting their join gives the parts back |
| SplitJoin.JoinShape | include/bytearray.h:922-929 | no parts join to "", one part to itself, more parts to first + delimiter + join of the rest |
| SplitJoin.ReplaceIsSplitJoin | include/bytearray.h:877-884 | replace equals splitting on oldStr and joining with newStr |
| SplitJoin.ReplaceNoChange | include/bytearray.h:877-884 | replacing an absent pattern by any newStr changes nothing, and replacing a pattern by itself changes nothing |
| SplitJoin.ReplaceEmptyPatternNeverStops | include/bytearray.h:878-882 | with an empty oldStr every pass of the loop finds a match at pos and leaves pos inside the new string, so the loop never ends; with an empty newStr the state does not change at all |
| SplitJoin.ReplaceChecked | include/bytearray.h:877-884 | corrected replace: an empty oldStr leaves the string unchanged; any other oldStr gives split-then-join; an absent pattern changes nothing |
| SplitJoin.SplitEmptyDelimiterNeverStops | include/bytearray.h:911-917 | with an empty delimiter, find succeeds at 0 and every pass yields an empty part without moving start, so the loop never ends |
| SplitJoin.SplitChecked | include/bytearray.h:909-920 | corrected split: an empty delimiter yields the whole string as one part; there is always at least one part, and joining the parts with the delimiter gives back the string |
| SplitJoin.ReplaceOverlapping | include/bytearray.h:877-884 | the scan resumes after the inserted text: "aaa" with "aa" → "a" gives "aa" |
| SplitJoin.GetlineIsSplitWithoutTrailingEmpty | include/bytearray.h:899-907 | the getline split is the delimiter split with a trailing empty part dropped |
| SplitJoin.GetlineSplitEdges | include/bytearray.h:899-907 | "" splits into no parts, a string without the delimiter into itself, and a leading delimiter gives a leading empty part |
| SplitJoin.GetlineTrailingDelimiter | include/bytearray.h:899-907 | a trailing delimiter starts no further part |
| SplitJoin.RepeatShape | include/bytearray.h:972-983 | n copies have length size·n, and position k holds character k mod size |
| SplitJoin.ReplaceStep | include/bytearray.h:879-882 | one replacement in the loop keeps "text before pos + replace of the rest" equal to the final result |
| Conversions.DropSpaces | include/bytearray.h:985-993 | strtol's leading isspace skip leaves a string that does not start with whitespace |
| Conversions.DigitRun | include/bytearray.h:985-993 | strtol reads the longest prefix of digits of the base |
| Conversions.ParseSigned | include/bytearray.h:985-1013 | a signed conversion succeeds only with a value inside the target type's range |
| Conversions.Stoul | include/bytearray.h:1025-1043 | stoul succeeds only with a value in 0..ULONG_MAX |
| Conversions.NatDigits | include/bytearray.h:1066-1079 | the digits written for n are lower-case digits of the base, with no whitespace or sign and no leading zero; "0" exactly for zero |
| Conversions.DigitsRoundTrip | include/bytearray.h:1066-1079 | reading back the digits written for n in any base 2..16 gives n |
| Conversions.StoiToString | include/bytearray.h:1066-1068 | stoi reads back to_string(n) for every int n |
| Conversions.StoiRejectsEmpty | include/bytearray.h:985-993 | stoi fails on the empty string |
| Conversions.StoiRejectsNonDigit | include/bytearray.h:985-993 | stoi fails when the first character after leading whitespace is neither a sign nor a digit |
| Conversions.StoiRejectsAboveMax | include/bytearray.h:985-993 | stoi fails on a digit string whose value is above INT_MAX |
| Conversions.StoiRejectsBelowMin | include/bytearray.h:985-993 | stoi fails on '-' followed by a magnitude above 2^31, below INT_MIN |
| Conversions.StoiSkipsSpace | include/bytearray.h:985-1033 | leading whitespace does not change stoi, stol or stoul |
| Conversions.StoiSkipsPlus | include/bytearray.h:985-1033 | one leading '+' does not change stoi, stol or stoul |
| Conversions.StoiStopsAtNonDigit | include/bytearray.h:985-1033 | reading stops at the first non-digit: trailing text does not change the result |
| Conversions.StoulWrapsNegative | include/bytearray.h:1025-1033 | stoul accepts '-' and negates modulo 2^64 |
| Conversions.Convert | include/bytearray.h:985-993 | the toInt family reports ok exactly when the conversion succeeds, and returns 0 otherwise |
| HexCodec.HexByte | include/bytearray.h:1242-1249 | each byte becomes two lower-case hex digits whose value is the byte |
| HexCodec.HexEncode | include/bytearray.h:1242-1249 | the encoding is twice as long and all lower-case hex digits |
| HexCodec.DecodePairs | include/bytearray.h:1251-1265 | a successful decoding has one byte per pair of characters |
| HexCodec.PairValueTable | include/bytearray.h:1256-1258 | stoi(pair, nullptr, 16) agrees with the case table for every pair of characters |
| HexCodec.PairLeniency | include/bytearray.h:1256-1258 | stoi accepts " f", "+f", "1z" and "-f" as pairs, and rejects "zz" |
| HexCodec.DecodeEncode | include/bytearray.h:1242-1265 | decoding what toHexString wrote gives back the bytes |
| HexCodec.DecodeEncodeBytes | include/bytearray.h:1242-1265 | for a string of byte-sized characters, fromHexString(toHexString(s)) is s itself |
| HexCodec.EncodeDecode | include/bytearray.h:1242-1265 | encoding the decoding of lower-case hex text gives the text back |
| HexCodec.DecodeFailurePersists | include/bytearray.h:1260-1262 | once a pair of a prefix fails, the whole text fails |
| HexCodec.HexLoopStep | include/bytearray.h:1255-1259 | one pair either extends the decoded prefix by its byte or makes the decoding fail |
| ByteArrayStd.ByteArray.Left | include/bytearray.h:802-805 | left(len) is the first min(len, size) characters |
| ByteArrayStd.ByteArray.Right | include/bytearray.h:807-810 | right(len) is the last min(len, size) characters |
| ByteArrayStd.ByteArray.Mid | include/bytearray.h:812-815 | mid is empty from a position at or past the end, otherwise up to len characters from pos |
| ByteArrayStd.ByteArray.StartsWith | include/bytearray.h:818-821 | startsWith holds exactly when the prefix matches at 0 |
| ByteArrayStd.ByteArray.EndsWith | include/bytearray.h:823-826 | endsWith holds exactly when the suffix fits and matches at size − |suffix| |
| ByteArrayStd.ByteArray.Contains | include/bytearray.h:828-830 | contains holds exactly when the text occurs somewhere |
| ByteArrayStd.ByteArray.IndexOfChar | include/bytearray.h:932-935 | the first index at or after from holding ch, or npos when there is none |
| ByteArrayStd.ByteArray.IndexOf | include/bytearray.h:937-939 | the first occurrence at or after from, or npos when there is none |
| ByteArrayStd.ByteArray.LastIndexOfChar | include/bytearray.h:941-943 | the last index at or before from holding ch, or npos when there is none |
| ByteArrayStd.ByteArray.LastIndexOf | include/bytearray.h:945-947 | the last occurrence starting at or before from, or npos when there is none |
| ByteArrayStd.ByteArray.Compare | include/bytearray.h:950-961 | compare is negative, zero or positive exactly as this string sorts before, equals or sorts after the other, lexicographically; on the lower-cased copies when case-insensitive |
| ByteArrayStd.ByteArray.ToInt | include/bytearray.h:985-993 | toInt is ok exactly when stoi succeeds, with a value in int range, and 0 otherwise |
| ByteArrayStd.ByteArray.ToLong | include/bytearray.h:995-1003 | toLong is ok exactly when stol succeeds, with a value in long range, and 0 otherwise |
| ByteArrayStd.ByteArray.ToUInt | include/bytearray.h:1015-1023 | toUInt keeps the low 32 bits of stoul's value, and is ok exactly when stoul succeeds |
| ByteArrayStd.ByteArray.ToULong | include/bytearray.h:1025-1033 | toULong is ok exactly when stoul succeeds, with a value in 0..ULONG_MAX |
| ByteArrayStd.ByteArray.Prepend | include/bytearray.h:833-836 | the new string is str followed by the old string |
| ByteArrayStd.ByteArray.PrependChar | include/bytearray.h:838-841 | the new string is ch followed by the old string |
| ByteArrayStd.ByteArray.ToLower | include/bytearray.h:843-846 | the string becomes its lower-cased copy: 'A'..'Z' become 'a'..'z' and every other character stays |
| ByteArrayStd.ByteArray.ToUpper | include/bytearray.h:848-851 | the string becomes its upper-cased copy: 'a'..'z' become 'A'..'Z' and every other character stays |
| ByteArrayStd.ByteArray.TrimLeft | include/bytearray.h:857-865 | the string becomes its left trim |
| ByteArrayStd.ByteArray.TrimRight | include/bytearray.h:867-875 | the string becomes its right trim |
| ByteArrayStd.ByteArray.Trim | include/bytearray.h:853-855 | the string becomes its trim (trimLeft, then trimRight) |
| ByteArrayStd.ByteArray.Replace | include/bytearray.h:877-884 | the in-place loop leaves the left-to-right, non-overlapping replacement of every occurrence, which is split-then-join; an empty oldStr leaves the string unchanged (the corrected behaviour) |
| ByteArrayStd.ByteArray.Remove | include/bytearray.h:886-891 | erase at pos inside the string, otherwise nothing changes |
| ByteArrayStd.ByteArray.Insert | include/bytearray.h:893-896 | inserting past the end throws out_of_range and changes nothing; otherwise the text is inserted at pos |
| ByteArrayStd.ByteArray.Fill | include/bytearray.h:963-970 | the string becomes size copies of ch, or as many as before when size is negative |
| SplitJoin.Getline | include/bytearray.h:899-907 | one std::getline call reads the text up to the next delimiter, or to the end, and moves past that delimiter |
| ByteArrayStd.ByteArray.SplitChar | include/bytearray.h:899-907 | the getline loop yields the getline split |
| ByteArrayStd.ByteArray.Split | include/bytearray.h:909-920 | the find loop yields the delimiter split, whose join is the string; an empty delimiter yields the whole string (the corrected behaviour) |
| ByteArrayStd.ByteArray.Join | include/bytearray.h:922-929 | the loop yields the parts with the delimiter between consecutive parts |
| ByteArrayStd.ByteArray.Repeated | include/bytearray.h:972-983 | times copies of the string, and none for times <= 0 |
| ByteArrayStd.ByteArray.ToHexString | include/bytearray.h:1242-1249 | the loop yields the hex encoding of every byte |
| ByteArrayStd.ByteArray.FromHexString | include/bytearray.h:1251-1265 | empty for an odd length or a rejected pair, otherwise the decoded bytes |
| ByteArrayStd.ByteArray.Number | include/bytearray.h:1066-1079 | base 16 starts with "0x" and base 8 with "0"; the digits after the prefix are worth n mod 2^32 (NumberPrefixedDigits), and every other base writes decimal that toInt reads back as n (ToIntOfNumber) |
| ByteArrayStd.ByteArray.FileName | include/bytearray.h:1203-1209 | the file name is a suffix of the path; PathSplits proves it is the text after the last '/' and holds no '/' |
| ByteArrayStd.ByteArray.Directory | include/bytearray.h:1211-1217 | the directory is a prefix of the path; PathSplits proves it is empty or ends with the last '/', and that directory + file name is the path |
| ByteArrayStd.ByteArray.FileExtension | include/bytearray.h:1219-1227 | the extension is a suffix of the path; ExtensionOfFileName proves it is empty exactly when the file name has no '.', and otherwise the file name's tail from its last '.' |
| ByteArrayStd.SlicesAgree | include/bytearray.h:802-815 | left(k) + right(size − k) is the string; mid(0, len) is left(len); mid to the end is right |
| ByteArrayStd.QueriesAgree | include/bytearray.h:818-947 | contains is indexOf ≠ npos, startsWith is indexOf == 0, and endsWith is lastIndexOf == size − |str| |
| ByteArrayStd.CompareProperties | include/bytearray.h:950-961 | compare is antisymmetric in both modes, and an upper-cased copy compares equal case-insensitively |
| ByteArrayStd.ToIntOfNumber | include/bytearray.h:985-993 | toInt reads back number(n, base) for every base other than 8 and 16 |
| ByteArrayStd.ToIntOfHexNumber | include/bytearray.h:1069-1072 | toInt of number(n, 16) is 0: stoi stops at the 'x' |
| ByteArrayStd.NumberPrefixedDigits | include/bytearray.h:1069-1076 | after the prefix, number(n, 16/8) holds lower-case digits with no leading zero, whose value is n mod 2^32 |
| ByteArrayStd.NumberExamples | include/bytearray.h:1066-1079 | number(255, 16) is "0xff", and number(15, 2) falls back to decimal "15" |
| ByteArrayStd.ToUIntOfMinusOne | include/bytearray.h:1015-1023 | toUInt of "-1" is UINT_MAX |
| ByteArrayStd.LastOccurrence | include/bytearray.h:1204 | rfind of a character from npos is its last occurrence, or npos when it is absent |
| ByteArrayStd.PathSplits | include/bytearray.h:1203-1217 | directory + file name is the path, the file name holds no separator, and the directory is empty or ends with one |
| ByteArrayStd.ExtensionOfFileName | include/bytearray.h:1219-1227 | the extension is empty exactly when the file name has no '.'; otherwise it is the file name's tail from its last '.' |
| Performance.Intervals | include/bytearray.h:750-756 | one interval per neighbouring pair, each the later point minus the earlier |
| Performance.Telescope | include/bytearray.h:745-756 | the intervals sum to the span from the first point to the last, or 0 with fewer than two points |
| Performance.IntervalsSnoc | include/bytearray.h:741-756 | recording a point adds exactly one interval, the gap from the previous last point |
| Performance.IntervalsNonNegative | include/bytearray.h:750-756 | a non-decreasing clock gives no negative interval |
| Performance.DurationAfterRecord | include/bytearray.h:736-756 | after reset the duration is 0 with no intervals; each later point adds its gap to the duration |
| Performance.PerformanceUtil.Reset | include/bytearray.h:736-739 | reset leaves exactly the current time point |
| Performance.PerformanceUtil.RecordTimePoint | include/bytearray.h:741-743 | the current time is appended |
| Performance.PerformanceUtil.GetDuration | include/bytearray.h:745-748 | the duration is the sum of all the intervals |
| Performance.PerformanceUtil.GetIntervals | include/bytearray.h:750-756 | the loop from index 1 yields the intervals |
| ByteArrayCap.ByteArray.Left | capability-foundations/leee/bytearray.h:36 | left(len) is the first min(len, size) characters, and never throws |
| ByteArrayCap.ByteArray.Right | capability-foundations/leee/bytearray.h:37 | right throws out_of_range exactly when len exceeds the size; otherwise it is the last len characters |
| ByteArrayCap.ByteArray.Mid | capability-foundations/leee/bytearray.h:38 | mid throws out_of_range exactly when pos is past the end; otherwise up to len characters from pos |
| ByteArrayCap.ByteArray.StartsWith | capability-foundations/leee/bytearray.h:40 | rfind(str, 0) == 0 holds exactly when the prefix matches at 0 |
| ByteArrayCap.ByteArray.EndsWith | capability-foundations/leee/bytearray.h:41-44 | endsWith holds exactly when the suffix fits and matches at size − |str| |
| ByteArrayCap.ByteArray.Contains | capability-foundations/leee/bytearray.h:45 | contains holds exactly when the text occurs somewhere |
| ByteArrayCap.ByteArray.ToUpper | capability-foundations/leee/bytearray.h:47-51 | the copy has the same length, with ::toupper applied at every index, so 'a'..'z' become 'A'..'Z' and every other character stays |
| ByteArrayCap.ByteArray.ToLower | capability-foundations/leee/bytearray.h:52-56 | the copy has the same length, with ::tolower applied at every index, so 'A'..'Z' become 'a'..'z' and every other character stays |
| ByteArrayCap.ByteArray.Trim | capability-foundations/leee/bytearray.h:58-63 | trim gives the same string as the other class's trimLeft followed by trimRight |
| ByteArrayCap.ByteArray.Append | capability-foundations/leee/bytearray.h:65 | str is appended |
| ByteArrayCap.ByteArray.AppendArray | capability-foundations/leee/bytearray.h:208-211 | the other object's string, as it was before the call, is appended (also when it is this object) |
| ByteArrayCap.ByteArray.Prepend | capability-foundations/leee/bytearray.h:66 | str is prepended |
| ByteArrayCap.ByteArray.Insert | capability-foundations/leee/bytearray.h:67 | inserting past the end throws out_of_range and changes nothing; otherwise the text is inserted at pos |
| ByteArrayCap.ByteArray.Remove | capability-foundations/leee/bytearray.h:68 | erasing from past the end throws out_of_range and changes nothing; otherwise erase at pos |
| ByteArrayCap.ByteArray.SplitChar | capability-foundations/leee/bytearray.h:70-78 | the getline loop yields the getline split |
| ByteArrayCap.ByteArray.IndexOfChar | capability-foundations/leee/bytearray.h:80 | the first index holding ch, or npos exactly when ch is absent |
| ByteArrayCap.ByteArray.IndexOf | capability-foundations/leee/bytearray.h:81 | the first occurrence, or npos exactly when the text does not occur |
| ByteArrayCap.ByteArray.LastIndexOfChar | capability-foundations/leee/bytearray.h:82 | the last index holding ch, or npos exactly when ch is absent |
| ByteArrayCap.ByteArray.ToInt | capability-foundations/leee/bytearray.h:84-92 | toInt is ok exactly when stoi succeeds, with a value in int range, and 0 otherwise |
| ByteArrayCap.ByteArray.Number | capability-foundations/leee/bytearray.h:114-119 | number is empty exactly when the base is outside 2..36 |
| ByteArrayCap.ByteArray.ToHexString | capability-foundations/leee/bytearray.h:145-151 | the loop yields the hex encoding of every byte |
| ByteArrayCap.ByteArray.FromHexString | capability-foundations/leee/bytearray.h:153-160 | empty for an odd length, invalid_argument when a pair is rejected, otherwise the decoded bytes written into the preallocated string |
| ByteArrayCap.ByteArray.Compare | capability-foundations/leee/bytearray.h:162-170 | compare is negative, zero or positive exactly as this string sorts before, equals or sorts after the other, lexicographically; on the lower-cased copies when case-insensitive |
| ByteArrayCap.ByteArray.Fill | capability-foundations/leee/bytearray.h:172-176 | the string becomes size copies of ch, or as many as before for the default size_t(-1) |
| ByteArrayCap.ByteArray.Repeated | capability-foundations/leee/bytearray.h:178-184 | times copies of the string, and none for times <= 0 |
| ByteArrayCap.ByteArray.Join | capability-foundations/leee/bytearray.h:238-245 | the loop yields the parts with the separator before every part but the first |
| ByteArrayCap.SlicesAgree | capability-foundations/leee/bytearray.h:36-38 | left(k) + right(size − k) is the string, and mid(k, size) is right(size − k) |
| ByteArrayCap.ToIntOfNumber | capability-foundations/leee/bytearray.h:84-119 | toInt reads back number(n, base) for a base in 2..36 other than 8 and 16 |
| ByteArrayCap.NumberDigits | capability-foundations/leee/bytearray.h:114-119 | number(n, 8/16) is unprefixed lower-case digits with no leading zero, whose value is n mod 2^32 |
| TestReport.CountPassed | test/test_report_generator.cpp:78-82 | the reference count of passed results that a consistent passed_tests counter equals; at most all the results |
| TestReport.CountFailed | test/test_report_generator.cpp:78-82 | the reference count of failed results: together with the passed ones, every result |
| TestReport.EmptySuite | test/test_report_generator.cpp:54-58 | a new suite has the given name, no results and consistent (zero) counters |
| TestReport.Record | test/test_report_generator.cpp:74-82 | recording appends the result, raises total_tests by one, total_duration_ms by the result's duration, and passed_tests or failed_tests by one as the result says; the counters stay consistent with the results |
| TestReport.TotalsCount | test/test_report_generator.cpp:131-142 | over consistent suites the totals count every result once, each passed or failed, and count the suites |
| TestReport.TotalsAfterRecord | test/test_report_generator.cpp:60-83 | adding a result raises the total, passed-or-failed count and duration by that result alone |
| TestReport.TotalsAfterStart | test/test_report_generator.cpp:54-58 | starting a suite adds one suite and changes no other total |
| TestReport.TestReportGenerator.constructor | test/test_report_generator.cpp:51-52 | a new generator has no suites and keeps the report file name |
| TestReport.TestReportGenerator.StartTestSuite | test/test_report_generator.cpp:54-58 | an empty suite is appended, and the counters stay consistent |
| TestReport.TestReportGenerator.AddTestResult | test/test_report_generator.cpp:60-83 | "Default Suite" is opened when there is none; only the last suite changes, by recording the result; the counters stay consistent |
| TestReport.TestReportGenerator.ComputeTotals | test/test_report_generator.cpp:131-142 | the loop yields the suite count and the summed counters, and over consistent suites the total tests are the passed plus the failed |

## Left out

- The report generators too are modelled only up to the totals they compute.
  - Their HTML and text output, percentages and file I/O are left out: pure formatting over floating point, with no logic beyond the totals.
  - The timestamps of `TestResult` and the generator's start time are left out: they come from the clock.
- `getReport` of `PerformanceUtil` formats doubles with fixed precision; floating-point formatting is not modelled.
- The clock is not modelled. `getCurrentTimeStampTicksMs` becomes the `now` parameter of `Reset` and `RecordTimePoint`.
- Durations and time points are exact reals, so double rounding is not modelled.
- Performance.PerformanceUtil.GetDuration: a double difference is not a sum of rounded doubles; the contract holds for exact reals only.
- The C++ `char` is a byte; the model uses Dafny's wider `char`. `ByteOf` reads the low eight bits, so `toHexString` and `fromHexString` agree with the source for byte-sized characters.
- StdString.Compare and both `Compare` members return only the sign (−1, 0, 1). The source's `std::string::compare` may return any negative or positive value; only the sign is specified, and CompareOrder ties it to the lexicographic order.
- Characters are ordered by code point. `std::char_traits<char>` compares as unsigned char, which agrees with this for byte-sized characters.
- `split(char)` follows the code, not the header comment at include/bytearray.h:260. The comment says an empty string gives one empty part; `std::getline` on an empty stream reads nothing, so the code gives no parts (GetlineSplitEdges).
- `number(n, base)` in include/bytearray.h writes decimal for every base other than 8 and 16, so `number(15, 2)` is "15" (NumberExamples). The model follows the code.
- ByteArrayStd.ByteArray.Replace and ByteArrayStd.ByteArray.Split follow the corrected behaviour on an empty pattern (see "## Findings"). The source's non-terminating loops are modelled one pass at a time, by `ReplaceIteration` and `SplitIteration`.
- ByteArrayCap.ByteArray.LastIndexOfChar requires a size of at most `NPOS`, which every real string meets.
- The path functions use `/`; the Windows separator of the `SLASH` macro is not modelled.
- The instance versions of getFileName, getDirectory and getFileExtension (include/bytearray.h:1229-1239) are left out. They call the static ones with the object's own string.
- `toLongLong` and `toULongLong` (include/bytearray.h:1005-1013, 1035-1043) are left out. On the 64-bit platform modelled they equal `ToLong` and `ToULong`, since `stoll`/`stoull` share the range of `stol`/`stoul`.
- The other overloads of `number` (unsigned, long, double) are left out, as are `toFloat` and `toDouble`: floating point and formatting.
- The `ByteArray` operators and constructors that only copy or concatenate are left out, apart from `+=` in the capability class.
- `pack`, `unpack` and file save/load are left out: memory copies and I/O.
- The `TestSuiteResult` counters are `int` in the source. Their 32-bit overflow is not modelled; the counters are unbounded.
- `std::stoi` over a two-character pair can only throw `invalid_argument`, so the capability `FromHexString` never returns `OutOfRange`.

## Findings

| source | as written | input that shows it | evidently intended | confidence | as-written member | corrected member |
|---|---|---|---|---|---|---|
| include/bytearray.h:877-884 | `replace` loops while `find(oldStr, pos)` succeeds, then advances pos by `newStr.length()`. An empty `oldStr` is found at every pos up to the size, so the loop never ends. | `ByteArray("aaa").replace("", "X")` goes "Xaaa", "XXaaa", … without end. With `newStr` empty too, the state never changes. | An empty `oldStr` leaves the string unchanged, as development-tools/test/unit/test_edge_cases.cpp:165-167 expects. | not executed; high that the loop never ends, high for the intended result | SplitJoin.ReplaceEmptyPatternNeverStops | SplitJoin.ReplaceChecked |
| include/bytearray.h:909-920 | `split(delimiter)` loops while `find(delimiter, start)` succeeds, then sets start to `end + delimiter.length()`. An empty delimiter is found at start itself, so start never moves and empty parts pile up without end. | `ByteArray("ab").split("")` finds "" at 0 on every pass. | An empty delimiter yields the whole string as the one part, so that joining the parts gives back the string. | not executed; high that the loop never ends, high for the intended result, which the header comment at include/bytearray.h:268 states | SplitJoin.SplitEmptyDelimiterNeverStops | SplitJoin.SplitChecked |
