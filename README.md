# RestaurantMenu core in Dafny

This project models the core of RestaurantMenu, a small console program that keeps a restaurant's menu. A dish has a name, a price and a preparation time. Dishes are read from a text file in which each line looks like `"Name" price hours:minutes`. They are kept in a storage and can be sorted by name, by price or by time. They can also be filtered by a maximum price, a maximum time, or both. The user types criteria as free text such as `500 1:30`.

The Dafny modules follow the C++ files:

| module | file | C++ file |
|---|---|---|
| `Wrappers` | wrappers.dfy | an `Option` type for the boolean "parsed / not parsed" results |
| `StringUtils` | utils.dfy | utils.cpp: digit and blank tests, `trim`, `tokenize` |
| `Models` | models.dfy | models.cpp: `Time` with its normalisation, ordering and text form; `Dish` |
| `Parsers` | parsers.dfy | parsers.cpp: `NumberParser`, `TimeParser`, `UserInputParser` |
| `Storage` | storage.dfy | storage.cpp: `MenuStorage`, the three sorts and the three filters |
| `FileParser` | file_parser.dfy | file_parser.cpp: `MenuFileParser` |

Modelling choices:

- **`Time` and `Dish` are values.** In C++ they are copied into vectors, returned by value and compared with `==`. So they are Dafny datatypes, and `setTime` is a function that returns the updated value.
  - `MakeTime(hours, minutes, days, years)` is the constructor followed by `normalizeTime`.
  - For non-negative components its closed form is proved: the time is rebuilt from its total minutes, clamped to 999 years, 29 days, 23 hours and 59 minutes. A negative hour count is not carried by the source; `Models.MakeTimeKeepsNegativeHours` states what happens then.
- **The parsers and the storage are classes.** In C++ they are objects whose fields change.
  - `NumberParser` and `TimeParser` keep `result` and `valid` fields. Their `Parse` methods set them from specification functions, `ParseNumber` and `ParseTime`.
  - `MenuStorage` keeps its vector of dishes as a `seq<Dish>` field.
  - Every loop of the source is a Dafny loop with invariants. These are `isOnlyDigits`, `trim`, `tokenize`, the comma replacement, the character check, the token loops of both line parsers, the line loop of `parseFile` and the copy loop of the filters.
- **A `double` is an exact `real`.** `NumberParser::parse` is `ParseNumber`. It turns commas into dots, checks that only digits, `.`, `,` and `-` remain, then reads the text as `istringstream >> double` does, and insists that the whole text is used.
- **Sorting uses `std::sort`.** It is modelled as an insertion sort over an `array<Dish>`, proved to leave the array sorted by the comparator and to be a permutation of the input.
- **The menu file is a sequence of lines.** The lines are what `getline` yields.

## Model

| member | source | states |
|---|---|---|
| StringUtils.CharClasses | RestaurantMenu/utils.cpp:6-24 | a digit is exactly one of `0`–`9`; a safe space is exactly one of space, tab, newline and carriage return |
| StringUtils.OnlyDigits | RestaurantMenu/utils.cpp:11-19 | defines what `isOnlyDigits` decides: a non-empty string of ASCII digits; `StringUtils.IsOnlyDigits` is proved to compute it |
| StringUtils.IsOnlyDigits | RestaurantMenu/utils.cpp:11-19 | the loop answers true exactly when the string is non-empty and every character is an ASCII digit |
| StringUtils.Trimmed | RestaurantMenu/utils.cpp:27-41 | defines what `trim` returns: the string with its leading and then its trailing safe spaces dropped; `StringUtils.TrimmedIsCore` and `StringUtils.TrimIdempotent` state its meaning |
| StringUtils.Trim | RestaurantMenu/utils.cpp:27-41 | the two index loops return exactly the trimmed core of the string |
| StringUtils.TrimmedIsCore | RestaurantMenu/utils.cpp:27-41 | the trimmed string is a contiguous slice of the input; everything cut off on either side is blank; a non-empty result starts and ends with a non-blank |
| StringUtils.TrimIdempotent | RestaurantMenu/utils.cpp:27-41 | trimming twice is trimming once |
| StringUtils.Tokens | RestaurantMenu/utils.cpp:44-71 | defines what `tokenize` returns: the input split at safe spaces, empty pieces skipped; its meaning is stated by `StringUtils.SplitYieldsWords`, `StringUtils.SplitConcat` and `StringUtils.SplitEmptyIffBlank` |
| StringUtils.Tokenize | RestaurantMenu/utils.cpp:44-71 | the character loop with its in-token flag and final flush yields exactly the maximal runs of non-blank characters |
| StringUtils.SplitYieldsWords | RestaurantMenu/utils.cpp:44-71 | every token is non-empty and holds no separator |
| StringUtils.SplitConcat | RestaurantMenu/utils.cpp:44-71 | gluing the tokens back together gives the input with its separators deleted; no character is lost or invented |
| StringUtils.SplitEmptyIffBlank | RestaurantMenu/utils.cpp:44-71 | there are no tokens exactly when the input is all separators |
| StringUtils.IndexOf | RestaurantMenu/file_parser.cpp:57-61 | `find(c, from)`: the index of the first `c` at or after `from`, or the length (npos) when there is none |
| StringUtils.NatDecimalRoundTrip | RestaurantMenu/parsers.cpp:92-93 | reading the decimal digits of a natural number gives the number back (the `stoi` of what `to_string` wrote) |
| StringUtils.IntDecimalChars | RestaurantMenu/models.cpp:61-83 | `to_string` of an integer uses only digits and a minus sign |
| Models.FromTotalInRange | RestaurantMenu/models.cpp:24-58 | a time rebuilt from a total of n minutes is normalised and has total n |
| Models.MakeTime | RestaurantMenu/models.cpp:6-21 | defines the constructor `Time(hours, minutes, days, years)` and `setTime`: the fields are stored with the day 1-based, then normalised |
| Models.Normalize | RestaurantMenu/models.cpp:24-50 | defines `normalizeTime`: minutes carried into hours when at least 60, hours into days when at least 24, days into 30-day years when above 30, then the clamp beyond 999 years; `Models.MakeTimeCanonical` gives its closed form |
| Models.TotalMinutes | RestaurantMenu/models.cpp:53-58 | defines `totalMinutes`: minutes, 60 per hour, 1440 per day after the first, 43200 per year; `Models.FromTotalInRange` and `Models.InRangeIsFromTotal` show it determines a normalised time |
| Models.InRangeIsFromTotal | RestaurantMenu/models.cpp:24-58 | a normalised time is determined by its total minutes |
| Models.MakeTimeCanonical | RestaurantMenu/models.cpp:6-50 | for non-negative parts, construction plus normalisation equals rebuilding the clamped total number of minutes |
| Models.MakeTimeNormalises | RestaurantMenu/models.cpp:24-58 | when no clamping occurs, the result is in range (minutes < 60, hours < 24, days 1..30, years <= 999) and keeps the total number of minutes |
| Models.MakeTimeClamps | RestaurantMenu/models.cpp:44-49 | beyond 999 years the time is clamped to `Time(59, 23, 30, 999)`: year 999, mday 30 (day index 29, which `toString` writes `999г. 29д. 23ч 59м`), 23:59 |
| Models.MakeTimeBounded | RestaurantMenu/models.cpp:24-58 | for non-negative parts the result is always normalised and its total lies between 0 and the clamp |
| Models.MakeTimeKeepsNegativeHours | RestaurantMenu/models.cpp:32-35 | a negative hour count is not carried (`hours >= 24` is false), so it survives normalisation |
| Models.NormalisationExamples | RestaurantMenu/models.cpp:24-50 | 1:65 is 2:05, 25:30 is one day 1:30, 1:75 is 2:15, 35 extra days make a year and 6th day, a year adds 43200 minutes |
| Models.TimeLess | RestaurantMenu/models.cpp:86-88 | defines `operator<`: a strictly smaller total of minutes; `Models.TimeLessStrictOrder` states its order properties |
| Models.TimeLessStrictOrder | RestaurantMenu/models.cpp:86-88 | `operator<` on total minutes is irreflexive, asymmetric and transitive |
| Models.EqualityOfNormalisedTimes | RestaurantMenu/models.cpp:91-96 | for normalised times, field-wise `operator==` coincides with equal total minutes |
| Models.ComparisonExamples | RestaurantMenu/models.cpp:86-96 | 2:30 equals 2:30, is less than 3:00 and not less than itself; 1:75 equals 2:15 |
| Models.ToString | RestaurantMenu/models.cpp:61-83 | defines `toString`: years with `г. `, days with `д. `, hours with `ч `, each shown under its guard, then the minutes with `м`; the lemmas below state its shape |
| Models.ToStringEndsWithMinutes | RestaurantMenu/models.cpp:61-83 | the text always ends with the minute count and the letter `м` |
| Models.ToStringUnitLetters | RestaurantMenu/models.cpp:61-83 | the year letter appears exactly when years > 0; the day letter exactly when mday > 1 (at least one whole day) or years > 0; the hour letter exactly when hours > 0, mday > 1 or years > 0 |
| Models.ToStringYearsFirst | RestaurantMenu/models.cpp:65-67 | with years > 0 the text starts with the year count followed by `г. ` |
| Models.ToStringShortForms | RestaurantMenu/models.cpp:70-80 | under a day the text is `Hч Mм`, or only `Mм` when there are no hours |
| Models.ToStringExamples | RestaurantMenu/models.cpp:61-83 | 2:30 is written `2ч 30м`, 0:45 `45м`, one year three days 2:30 `1г. 3д. 2ч 30м`, and zero `0м` |
| Models.NewDish | RestaurantMenu/models.cpp:104-107 | defines the component constructor of `Dish`: the name, the price and a time built by `setTime` |
| Models.SetDishTime | RestaurantMenu/models.cpp:110-112 | defines `Dish::setTime`: the dish with its time replaced by a newly set one |
| Models.DishMinutes | RestaurantMenu/models.cpp:115-117 | defines `Dish::totalMinutes`: its time's total minutes |
| Models.DishDelegatesToTime | RestaurantMenu/models.cpp:101-117 | `Dish::setTime` keeps the name and price and replaces the time by a normalised one; `Dish::totalMinutes` is its time's total; the full constructor is the same as `setTime` |
| Parsers.ReplaceCommas | RestaurantMenu/parsers.cpp:17-19 | the loop replaces every comma by a dot and changes nothing else |
| Parsers.OnlyNumberChars | RestaurantMenu/parsers.cpp:22-26 | once commas are dots, the loop accepts exactly the strings made only of digits, `.` and `-` |
| Parsers.StreamExtract | RestaurantMenu/parsers.cpp:29-34 | defines `ss >> value` followed by the failure and end-of-stream test: an optional minus, then digits with at most one point and at least one digit, all of the text read |
| Parsers.ParseNumber | RestaurantMenu/parsers.cpp:9-39 | defines what `NumberParser::parse` yields: nothing for the empty string, otherwise commas become points, the characters are checked and the stream reads the value |
| Parsers.NumberLiteralAccepted | RestaurantMenu/parsers.cpp:9-39 | every well-formed literal (optional minus, digits, optional `.` or `,` and digits, at least one digit) is accepted with its exact decimal value, negated after a minus |
| Parsers.NumberAcceptedShape | RestaurantMenu/parsers.cpp:9-39 | an accepted string is non-empty, has no colon, holds only digits, `.`, `,` and a leading `-`, and holds at least one digit |
| Parsers.NumberAcceptedLiteral | RestaurantMenu/parsers.cpp:9-39 | the converse of `Parsers.NumberLiteralAccepted`: every accepted token is a well-formed literal (optional minus, digits, at most one `.` or `,`, digits, at least one digit), and its value is that literal's exact decimal value |
| Parsers.NumberAcceptedIff | RestaurantMenu/parsers.cpp:9-39 | a token is accepted exactly when it is a well-formed literal |
| Parsers.UnsignedShape | RestaurantMenu/parsers.cpp:29-34 | the part the stream reads after an optional sign holds no minus and at least one digit |
| Parsers.NumberExamples | RestaurantMenu/parsers.cpp:9-39 | "42", "12.50", "7,99" and "-5.25" give their values; "", "abc", "12.50.30", ".." and "-" are rejected |
| Parsers.NumberParser.constructor | RestaurantMenu/parsers.cpp:6 | a new parser holds 0.0 and is not valid |
| Parsers.NumberParser.Reset | RestaurantMenu/parsers.cpp:52-55 | reset sets the result to 0.0 and clears the valid flag |
| Parsers.NumberParser.Parse | RestaurantMenu/parsers.cpp:9-49 | the answer and the valid flag say whether the text is a number; the result is its value, or 0.0 after a failure |
| Parsers.IsValidTime | RestaurantMenu/parsers.cpp:63-66 | defines `isValidTime`: neither hours nor minutes negative; `Parsers.DigitTimesAreValid` shows every time built from digits passes it |
| Parsers.CleanTimeToken | RestaurantMenu/parsers.cpp:72-75 | defines the token after `trim` and the erasure of every plain space |
| Parsers.ParseTime | RestaurantMenu/parsers.cpp:69-108 | defines what `TimeParser::parse` yields: the text around the first colon of the cleaned token must be two digit strings within `stoi`'s range, and the time built from them must pass `isValidTime` |
| Parsers.DigitTimesAreValid | RestaurantMenu/parsers.cpp:63-66 | every time built from non-negative hours and minutes passes `isValidTime` |
| Parsers.TimeNeedsColon | RestaurantMenu/parsers.cpp:78-79 | an accepted time text contains a colon |
| Parsers.NoColonRejected | RestaurantMenu/parsers.cpp:78-79 | a text without a colon is rejected |
| Parsers.ParseTimeOfDigits | RestaurantMenu/parsers.cpp:69-108 | once cleaned to `digits:digits`, the text gives the normalised time of the two values, or fails when one exceeds INT_MAX (the `stoi` exception) |
| Parsers.TimeRoundTrip | RestaurantMenu/parsers.cpp:69-108 | writing non-negative hours and minutes as `H:M` and parsing gives back their normalised time |
| Parsers.TimeAcceptedDigits | RestaurantMenu/parsers.cpp:72-101 | the converse of `Parsers.ParseTimeOfDigits`: an accepted token cleans to non-empty digit strings within `stoi`'s range around a colon, and its time is built from their values |
| Parsers.TimeAcceptedIff | RestaurantMenu/parsers.cpp:72-101 | a token is accepted exactly when it cleans to two in-range digit strings around a colon |
| Parsers.SpacesAroundColonIgnored | RestaurantMenu/parsers.cpp:72-75 | for any two digit strings, a plain space on each side of the colon does not change the parse |
| Parsers.SpacedTimeExample | RestaurantMenu/parsers.cpp:72-75 | the spaces of "12 : 30" are erased before reading, so it parses as 12:30 |
| Parsers.LeadingZeroTimeExample | RestaurantMenu/parsers.cpp:69-108 | `01:30`, with a leading zero as menu files write it, parses as 1:30 |
| Parsers.TimeExamples | RestaurantMenu/parsers.cpp:69-108 | 12:30, 1:5, 0:0 and 23:59 parse as written; 1:75, 12:60, 25:30 and 99:99 parse with carries; "12 : 30" parses as 12:30; "", "1230", "-1:30" and "ab:cd" are rejected |
| Parsers.RejectedTimeExamples | RestaurantMenu/parsers.cpp:72-89 | an empty text, a text without a colon, a negative hour and letters are rejected |
| Parsers.TimeParser.constructor | RestaurantMenu/parsers.cpp:60 | a new parser holds the zero time and is not valid |
| Parsers.TimeParser.Reset | RestaurantMenu/parsers.cpp:121-124 | reset restores the zero time and clears the valid flag |
| Parsers.TimeParser.Parse | RestaurantMenu/parsers.cpp:69-118 | the answer and the valid flag say whether the token is a time; the result is that time, or the zero time after a failure |
| Parsers.TimeAndNumberDisjoint | RestaurantMenu/parsers.cpp:9-108 | no token is both a time and a number, so the order of the two tests in the token loops does not matter |
| Parsers.FirstTime | RestaurantMenu/parsers.cpp:142-155 | defines the time the token loop keeps: that of the first token that parses as a time |
| Parsers.FirstPrice | RestaurantMenu/parsers.cpp:142-155 | defines the price the token loop keeps: that of the first token that parses as a number |
| Parsers.FirstTimeAppend | RestaurantMenu/parsers.cpp:142-155 | one more token changes the first time only when none was found yet |
| Parsers.FirstPriceAppend | RestaurantMenu/parsers.cpp:142-155 | one more token changes the first price only when none was found yet |
| Parsers.CriteriaOrderIndependent | RestaurantMenu/parsers.cpp:135-158 | a time token and a number token are found in either order |
| Parsers.UserInputParser.constructor | RestaurantMenu/parsers.cpp:129-132 | the input parser owns a fresh time parser and a fresh number parser |
| Parsers.UserInputParser.ScanToken | RestaurantMenu/parsers.cpp:143-154 | one loop step: the first time and the first price are recorded, later ones are ignored, and a time ends the step |
| Parsers.UserInputParser.Parse | RestaurantMenu/parsers.cpp:135-158 | over the whitespace-separated words, the time is the first word that parses as a time, the price the first that parses as a number, each kept as passed in when absent; the answer says whether either was found |
| Storage.MenuStorage.constructor | RestaurantMenu/storage.h:11-20 | a new storage is empty |
| Storage.MenuStorage.GetDishes | RestaurantMenu/storage.cpp:9 | defines `getDishes`: the stored dishes in insertion order |
| Storage.MenuStorage.GetDishesCount | RestaurantMenu/storage.cpp:10 | `getDishesCount` is the number of dishes `getDishes` returns |
| Storage.MenuStorage.AddDish | RestaurantMenu/storage.cpp:5-10 | the new dish, with its time normalised, is appended and the count grows by one |
| Storage.MenuStorage.Clear | RestaurantMenu/storage.cpp:11 | the storage becomes empty |
| Storage.MenuStorage.RemoveDish | RestaurantMenuTests/storage.h:60-61 | the answer is whether an exactly equal dish was stored; the first such dish is removed and the others keep their order |
| Storage.RemoveFirst | RestaurantMenuTests/storage.h:60-61 | defines the list after `removeDish`: without its first exactly equal dish |
| Storage.RemoveFirstEffect | RestaurantMenuTests/storage.h:60-61 | removal shortens the list by one exactly when the dish is present; otherwise it changes nothing; one copy of the dish leaves the multiset |
| Storage.RemoveFirstAt | RestaurantMenuTests/storage.h:60-61 | removal cuts out the first index holding the dish and keeps the prefix and suffix around it |
| Storage.RemoveExample | RestaurantMenuTests/test_storage.cpp:47-68 | removing an existing dish reports success and leaves the other; removing an absent one reports failure and changes nothing |
| Storage.NameLess | RestaurantMenu/storage.cpp:15-18 | defines `a.name < b.name`: lexicographic order on characters, a proper prefix first |
| Storage.NameLessTotal | RestaurantMenu/storage.cpp:15-18 | of two different names, one is lexicographically smaller |
| Storage.NameLessTransitive | RestaurantMenu/storage.cpp:15-18 | the name order is transitive |
| Storage.NameLessExamples | RestaurantMenu/storage.cpp:15-18 | concrete names compare as `std::string::operator<` does, a prefix first |
| Storage.ComparatorStrictWeak | RestaurantMenu/storage.cpp:15-28 | each of the three comparators is a strict weak order, as `std::sort` requires |
| Storage.SortInPlace | RestaurantMenu/storage.cpp:15-28 | after sorting no element goes strictly before an earlier one, and the elements are a permutation of the input |
| Storage.InsertLast | RestaurantMenu/storage.cpp:15-28 | one insertion step extends the sorted prefix by one element and keeps the elements |
| Storage.SortAlphabetically | RestaurantMenu/storage.cpp:15-18 | the dishes become a permutation sorted by name |
| Storage.SortByPriceDesc | RestaurantMenu/storage.cpp:20-23 | the dishes become a permutation sorted by falling price |
| Storage.SortByTimeAsc | RestaurantMenu/storage.cpp:25-28 | the dishes become a permutation sorted by rising time |
| Storage.SortedMeaning | RestaurantMenu/storage.cpp:15-28 | in a sorted result every earlier name is equal or smaller, every earlier price is greater or equal, every earlier time takes no longer |
| Storage.Keep | RestaurantMenu/storage.cpp:34-63 | defines what the filter loops collect: the dishes that pass the test, in input order |
| Storage.KeepCounts | RestaurantMenu/storage.cpp:34-63 | filtering keeps every copy of each matching dish and no copy of the others |
| Storage.KeepMembers | RestaurantMenu/storage.cpp:34-63 | a dish is kept exactly when it is in the input and matches |
| Storage.Narrow32 | RestaurantMenu/storage.cpp:45 | the `long long` to `int` conversion of the maximum's total; as `totalMinutes` already computes in `int`, a defined total always fits, and the result is the value modulo 2^32 in the `int` range |
| Storage.Narrow32Fits | RestaurantMenu/storage.cpp:45 | the conversion changes nothing for a value that fits in an `int` |
| Storage.CollectMatching | RestaurantMenu/storage.cpp:34-63 | the `push_back` loop collects exactly the matching dishes in input order |
| Storage.SortedCopy | RestaurantMenu/storage.cpp:39 | the copy handed to the sorter comes back sorted with the same elements |
| Storage.FilterByPrice | RestaurantMenu/storage.cpp:34-41 | the result holds exactly the dishes cheaper than the maximum, each as often as in the input, dearest first |
| Storage.FilterByTime | RestaurantMenu/storage.cpp:43-51 | the result holds exactly the dishes whose total minutes are below the maximum's total, quickest first; `Storage.TimeFilterMeaning` shows the conversion to `int` changes nothing for a normalised maximum |
| Storage.FilterByPriceAndTime | RestaurantMenu/storage.cpp:53-63 | the result holds exactly the dishes both cheaper and quicker, in name order |
| Storage.TimeFilterMeaning | RestaurantMenu/storage.cpp:43-63 | for a normalised maximum time the narrowing is harmless: a dish passes exactly when its time is less than the maximum |
| Storage.FilterResultMembers | RestaurantMenu/storage.cpp:34-63 | a filter's result holds a dish, as often as the input does, exactly when it matches |
| FileParser.ExtractQuotedName | RestaurantMenu/file_parser.cpp:56-68 | an extracted name is non-empty and has no quote; the remainder is the line without the name and its two quotes, plus one space |
| FileParser.ExtractQuotedInverse | RestaurantMenu/file_parser.cpp:56-68 | a line `pre"name"post`, with no quote before the closing one, splits into the name and `pre + " " + post` |
| FileParser.ExtractQuotedSound | RestaurantMenu/file_parser.cpp:56-68 | every accepted split comes from such a line: the line is rebuilt from its parts |
| FileParser.ExtractQuotedRejects | RestaurantMenu/file_parser.cpp:57-64 | no quote, a single quote, or an empty name `""` is rejected |
| FileParser.DishFrom | RestaurantMenu/file_parser.cpp:31-52 | defines the dish the tokens give: exactly two tokens, the first time and the first price both found, stored with the time's hours and minutes |
| FileParser.LineDish | RestaurantMenu/file_parser.cpp:22-54 | defines what `parseDishLine` adds: nothing for a blank line or one without a quoted name, otherwise the dish its remaining tokens give |
| FileParser.TokensOfSpacedWords | RestaurantMenu/utils.cpp:44-71 | words joined by single spaces tokenize back into the same words |
| FileParser.MenuLineDish | RestaurantMenu/file_parser.cpp:22-54 | the line `"name" w1 w2 …` gives the dish built from the name and the words |
| FileParser.DishFromEitherOrder | RestaurantMenu/file_parser.cpp:38-52 | a time and a price are accepted in either order and give the same dish |
| FileParser.DishFromNeedsBoth | RestaurantMenu/file_parser.cpp:38-49 | two times, or two prices, give no dish |
| FileParser.DishFromOnlyIf | RestaurantMenu/file_parser.cpp:38-49 | a two-word line makes a dish only when one word parses as a time and the other as a number, in either order |
| FileParser.DishFromIff | RestaurantMenu/file_parser.cpp:38-49 | a two-word line makes a dish exactly when one word parses as a time and the other as a number, in either order |
| FileParser.ExtraTokenRejected | RestaurantMenu/file_parser.cpp:30-31 | a line with three words after the name gives no dish |
| FileParser.StoredTime | RestaurantMenu/file_parser.cpp:51-52 | the stored dish takes the name, the first price, and the hours and minutes of the first time; its days are dropped |
| FileParser.ParsedTimeInRange | RestaurantMenu/parsers.cpp:96-101 | every parsed time is normalised |
| FileParser.StoredTimeLosesDays | RestaurantMenu/file_parser.cpp:51-52 | the stored time is the parsed total less its whole days and years, so under one day |
| FileParser.RejectedLineExamples | RestaurantMenu/file_parser.cpp:22-31 | empty and blank lines, a line without quotes and a line with an empty name give no dish |
| FileParser.AcceptedLineExample | RestaurantMenu/file_parser.cpp:22-54 | the well-formed line `"Test dish" 12.50 01:30` gives the dish named `Test dish` at 12.5 with time 1:30 |
| FileParser.AcceptedDishes | RestaurantMenu/file_parser.cpp:14-18 | defines the dishes the line loop adds, in line order |
| FileParser.RejectedLines | RestaurantMenu/file_parser.cpp:14-18 | defines the lines the loop counts invalid: non-empty and giving no dish |
| FileParser.LineAccounting | RestaurantMenu/file_parser.cpp:14-18 | every line is accepted, counted invalid, or skipped as empty, exactly one of them |
| FileParser.BlankLinesExample | RestaurantMenu/file_parser.cpp:14-18 | an empty line is skipped without counting, a line of spaces is counted invalid |
| FileParser.MenuFileParser.constructor | RestaurantMenu/file_parser.cpp:3-5 | the file parser owns a fresh number parser and a fresh time parser |
| FileParser.MenuFileParser.ScanTokens | RestaurantMenu/file_parser.cpp:38-47 | the loop finds the first token that parses as a time and the first that parses as a price |
| FileParser.MenuFileParser.ParseDishLine | RestaurantMenu/file_parser.cpp:22-54 | the answer is whether the line describes a dish; exactly that dish is appended to the storage, and nothing on failure |
| FileParser.MenuFileParser.ParseLines | RestaurantMenu/file_parser.cpp:7-20 | all accepted dishes are appended in line order, and the invalid count grows by the number of non-empty rejected lines |

## Left out

- File input: opening the file, the exception when it cannot be opened, and `getline` are not modelled. `ParseLines` takes the lines as a sequence.
- `double` arithmetic is not modelled. Prices are exact reals, and the text-to-`double` conversion with its rounding is exact decimal reading. A literal beyond the range of `double` (`1` followed by 309 zeros, say) makes the stream fail, so `NumberParser::parse` rejects it; `Parsers.ParseNumber` accepts it with its exact value.
- Parsers.StreamExtract: does not model the failure of `ss >> value` on a literal beyond the largest `double`; the model reads such a literal in full and `Parsers.ParseNumber` accepts it, because values are exact reals without a range.
- Parsers.NumberParser.Parse: the stream is modelled as reading a sign, digits, and an optional point with digits. Exponents (`1e5`) are not modelled because the character check before the stream already rejects `e`. Hexadecimal and infinity forms are not modelled for the same reason.
- Models.TotalMinutes: the source computes the sum in `int` before widening it to `long long`; overflow of that sum is not modelled. No normalised time comes near it, since the largest total is 43,199,999. For the same reason the conversion back to `int` in the time filters never changes a defined value, so the model applies `Storage.Narrow32` to the maximum only.
- Models.MakeTime: `int` overflow inside `normalizeTime` is not modelled. Integers are unbounded, and the counts that reach it (values up to INT_MAX from `stoi`) can carry past 2^31 in C++.
- Parsers.ParseTime: the `stoi` range check is modelled as failing above INT_MAX. The exceptions are modelled as a `None` result. Nothing else of `std::invalid_argument` or `std::out_of_range` is modelled.
- Locale handling is not modelled. It includes the `setlocale` call of the program's entry point and the byte-level behaviour of `isdigit`/`isspace` on non-ASCII text. Strings are sequences of characters, and the blank test of the user-input split is the ASCII `isspace` set. `Storage.NameLess` compares names by code point; `std::string` compares bytes as `unsigned char`. These agree for UTF-8 input only; in a single-byte code page such as CP1251 the orders differ. For example, `ё` is 0xB8 there, below `А` at 0xC0.
- Printing is not modelled: `printer.cpp`, `operator<<`, `Dish::getTimeString` and the menu table. `Time::toString` itself is modelled as `Models.ToString`.
- Storage.SortInPlace: only what `std::sort` guarantees is stated, namely sorted by the comparator and a permutation. The order among equal elements is unspecified in C++ and is not modelled.
- The interfaces `IMenuStorage`, `IMenuSorter` and `IMenuFilter`, the `unique_ptr` that hands a sorter to `MenuFilter`, and the builder and application classes are not modelled. The sorts and filters are module-level methods.
- The getters `isValid` and `getResult` of both parsers are reads of the `valid` and `result` fields and have no members of their own. `getDishes` and `getDishesCount` are `Storage.MenuStorage.GetDishes` and `Storage.MenuStorage.GetDishesCount`.
- `saveToFile`, declared in the interface (RestaurantMenu/interfaces.h:31) and in the test copy of the storage header, is not modelled: storage.cpp does not define it, and file output is I/O. The interface's `removeDish(name, price, hours, minutes)` and the test header's `addDish(name, price, time)` overload are not modelled separately. `removeDish` is modelled in the test header's `(name, price, Time)` form.
- `TimeParser::normalizeTime`, called in `parseDishLine`, is defined nowhere in the sources. It is modelled as returning its argument, which is already normalised by `Time`'s constructor.

## Where the code and the rest of the repository disagree

The model follows the code in each case:

- **Month length.** `normalizeTime` carries days above 30 into years, and `totalMinutes` counts a year as 30 days. The tests expect a 31-day month, for example 35 days giving day 4, and a year of 31 days of minutes.
- **Out-of-range times.** Tests expect "1:75", "12:60" and "99:99" to be rejected. `TimeParser::parse` accepts any non-negative hours and minutes and normalises them, as its own comment says. The model accepts them; see `Parsers.TimeExamples`.
- **Fields of `Time`.** `parseDishLine` reads `.hours` and `.minutes` from the time. Those are the field names of an older `models.h`. The model reads the normalised hour and minute. `addDish` takes only hours and minutes, so the days and years of a parsed time are lost; see `FileParser.StoredTimeLosesDays`.
- **`removeDish`.** The interface `IMenuStorage` declares `removeDish(name, price, hours, minutes)` and `saveToFile(filename)` (RestaurantMenu/interfaces.h:30-31). `MenuStorage` in RestaurantMenu/storage.h declares neither, and storage.cpp defines neither. The copy of the storage header used by the tests declares `removeDish(name, price, time)` with a `Time` (RestaurantMenuTests/storage.h:60-61) but gives it no body. The model follows that `(name, price, Time)` form and its test: exact match on name, price and time, first match removed.
