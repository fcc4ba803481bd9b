# PixelCore in Dafny

A model of the core of the PixelMEDIA libraries: the C# helper classes of PixelMEDIA.PixelCore, the console-side cache provider of PixelMEDIA.PixelExe, and the message, access and view-attribute logic of the MVC base classes in PixelMEDIA.PixelWeb. Each core source file is one Dafny module:

| module | file | source |
|---|---|---|
| Wrappers, Int32, Values | wrappers.dfy | shared: `Option`, `Result` with the .NET exception kinds as `Fault`, Int32 range and unchecked wrap-around, C#'s truncating `%`, boxed `object` values |
| Seqs | seqs.dfy | shared: `Filter`, `Map`, `String.Join` and their lemmas |
| StatusModel | status.dfy | Status.cs |
| SafeDictModel | safe_dict.dfy | SafeDict.cs |
| PagedSortedListModel | paged_sorted_list.dfy | PagedSortedList.cs |
| CollectionHelper | collection_helper.dfy | Helpers/CollectionHelper.cs |
| ConversionHelper | conversion_helper.dfy | Helpers/ConversionHelper.cs |
| DateHelper | date_helper.dfy | Helpers/DateHelper.cs |
| ExportHelper | export_helper.dfy | Helpers/ExportHelper.cs |
| StringHelper | string_helper.dfy | Helpers/StringHelper.cs |
| ReflectionHelper | reflection_helper.dfy | Helpers/ReflectionHelper.cs |
| LoggerModel | logger.dfy | Helpers/Logger.cs |
| RandomHelper | random_helper.dfy | Helpers/RandomHelper.cs |
| ExeCacheProviderModel | exe_cache_provider.dfy | PixelMEDIA.PixelExe/Providers/ExeCacheProvider.cs |
| PixelControllerModel | pixel_controller.dfy | PixelMEDIA.PixelWeb/Components/PixelController.cs |
| PixelHelperModel | pixel_helper.dfy | PixelMEDIA.PixelWeb/Components/PixelHelper.cs |

Conventions:

- **Exceptions.** An operation that can throw returns a `Result`. The error is the .NET exception it throws: `NullReference`, `ArgumentNull`, `ArgumentOutOfRange`, `Overflow`, `DivideByZero`, `DuplicateKey` (the `ArgumentException` of `Dictionary.Add`), `InvalidCast`, `Target` (`TargetException` from `PropertyInfo.GetValue` on null) or `Argument`.
- **Null.** A string is `Option<string>` wherever the source tests it for null. A boxed object is a `Value`: null, a string, an Int32, an Int64, a Boolean, a dictionary, or an opaque other object.
- **Framework pieces as parameters.** Framework code the core calls but does not define is passed in as a function:
  - `Guid.TryParse` and `Int32.TryParse` (`tryParse`);
  - `Object.ToString` (`toString`);
  - the `Equals` override of a non-null object (`equals`); the null cases of the static `Object.Equals` are part of the model;
  - `String.Format` (`format`);
  - `HttpUtility.HtmlAttributeEncode` (`encode`);
  - `Convert.ChangeType` (`changeType`);
  - the current culture's case folding (`fold`);
  - boxing and unboxing (`box`, `unbox`);
  - `System.Random`'s generator (`pick`, `step`).
- **State.** Objects whose fields the source changes in place are classes:
  - the controller, with its view dictionaries, cached lists and HTTP response;
  - the message lists;
  - the route value dictionaries;
  - the logger, with the entries it has written;
  - the cache provider;
  - the random generator;
  - a reflected object.
- **Loops.** The source's loops are `while`/`for` loops with invariants, proved against specification functions: `InclusiveRangeList`, `MakeJsonDict`, `GetDaysInRangeInclusive`, `ExtractKeyValuePairs`, `GetCsv`, `GetGetableProperties`, `GetSpecifiedPropertiesInFieldNameOrder`, `CopyProperties`, `ShallowCompare`, `GetMethodPath`, `GetAttributesString` and `GetRandomAlphanumericString`.

## Model

| member | source | states |
|---|---|---|
| StatusModel.Status.WithData | CompanyName.ProjectName/PixelMEDIA.PixelCore/Status.cs:71-74 | the typed status has the same success flag and message and carries the given data |
| StatusModel.TypedStatus.AsStatus | CompanyName.ProjectName/PixelMEDIA.PixelCore/Status.cs:9-37 | a Status<T> seen as a Status keeps its flag and message |
| StatusModel.ToBool | CompanyName.ProjectName/PixelMEDIA.PixelCore/Status.cs:177-180 | the implicit bool conversion is true exactly for a success |
| StatusModel.Fail | CompanyName.ProjectName/PixelMEDIA.PixelCore/Status.cs:81-84 | a failure whose message is the given message |
| StatusModel.FailException | CompanyName.ProjectName/PixelMEDIA.PixelCore/Status.cs:91-94 | a failure whose message is the exception's message |
| StatusModel.FailFormat | CompanyName.ProjectName/PixelMEDIA.PixelCore/Status.cs:102-105 | a failure whose message is the formatted text |
| StatusModel.Succeed | CompanyName.ProjectName/PixelMEDIA.PixelCore/Status.cs:112-115 | a success whose message is the given message |
| StatusModel.SucceedFormat | CompanyName.ProjectName/PixelMEDIA.PixelCore/Status.cs:123-126 | a success whose message is the formatted text |
| StatusModel.SucceedEmpty | CompanyName.ProjectName/PixelMEDIA.PixelCore/Status.cs:132-135 | a success with the empty message |
| StatusModel.SucceedWith | CompanyName.ProjectName/PixelMEDIA.PixelCore/Status.cs:144-147 | a typed success with the message and the data |
| StatusModel.FailWith | CompanyName.ProjectName/PixelMEDIA.PixelCore/Status.cs:156-159 | a typed failure with the message and the data |
| StatusModel.FailTyped | CompanyName.ProjectName/PixelMEDIA.PixelCore/Status.cs:167-170 | a typed failure whose Data stays default(T) |
| StatusModel.WithDataRoundTrip | CompanyName.ProjectName/PixelMEDIA.PixelCore/Status.cs:22-26 | attaching data then viewing as a Status gives the original back; the typed factories equal the untyped ones plus WithData |
| SafeDictModel.AsString | CompanyName.ProjectName/PixelMEDIA.PixelCore/SafeDict.cs:140-142 | the `is string` test succeeds exactly on a boxed string and gives that string |
| SafeDictModel.AsInt | CompanyName.ProjectName/PixelMEDIA.PixelCore/SafeDict.cs:140-142 | the `is int` test succeeds exactly on a boxed Int32 |
| SafeDictModel.AsLong | CompanyName.ProjectName/PixelMEDIA.PixelCore/SafeDict.cs:140-142 | the `is long` test succeeds exactly on a boxed Int64 |
| SafeDictModel.AsBool | CompanyName.ProjectName/PixelMEDIA.PixelCore/SafeDict.cs:140-142 | the `is bool` test succeeds exactly on a boxed Boolean |
| SafeDictModel.SafeDict.GetValue | CompanyName.ProjectName/PixelMEDIA.PixelCore/SafeDict.cs:134-153 | the stored value when the key is present and the value has the requested type; in every other case the default |
| SafeDictModel.SafeDict.GetString | CompanyName.ProjectName/PixelMEDIA.PixelCore/SafeDict.cs:64 | the stored string, or "" when the key is missing or holds a non-string |
| SafeDictModel.SafeDict.GetStringOr | CompanyName.ProjectName/PixelMEDIA.PixelCore/SafeDict.cs:72 | the stored string, or the given default when the key is missing or holds a non-string |
| SafeDictModel.SafeDict.GetLong | CompanyName.ProjectName/PixelMEDIA.PixelCore/SafeDict.cs:79 | the stored Int64, or 0 when the key is missing or holds anything else |
| SafeDictModel.SafeDict.GetLongOr | CompanyName.ProjectName/PixelMEDIA.PixelCore/SafeDict.cs:87 | the stored Int64, or the given default when the key is missing or holds anything else |
| SafeDictModel.SafeDict.GetInt | CompanyName.ProjectName/PixelMEDIA.PixelCore/SafeDict.cs:94 | the stored Int32, or 0 when the key is missing or holds anything else |
| SafeDictModel.SafeDict.GetIntOr | CompanyName.ProjectName/PixelMEDIA.PixelCore/SafeDict.cs:102 | the stored Int32 widened to the long result, or the given default when the key is missing or holds anything else, including an Int64 |
| SafeDictModel.SafeDict.GetBool | CompanyName.ProjectName/PixelMEDIA.PixelCore/SafeDict.cs:109 | true exactly when the key holds a boxed true |
| SafeDictModel.SafeDict.GetBoolOr | CompanyName.ProjectName/PixelMEDIA.PixelCore/SafeDict.cs:117 | the stored Boolean, or the given default when the key is missing or holds a non-Boolean |
| SafeDictModel.SafeDict.GetDict | CompanyName.ProjectName/PixelMEDIA.PixelCore/SafeDict.cs:52-57 | the nested dictionary at the key, or an empty wrapper when the key is missing or holds a non-dictionary |
| SafeDictModel.New | CompanyName.ProjectName/PixelMEDIA.PixelCore/SafeDict.cs:23-33 | wraps the given dictionary; null becomes an empty dictionary |
| SafeDictModel.FromDict | CompanyName.ProjectName/PixelMEDIA.PixelCore/SafeDict.cs:42-45 | a wrapper with the same keys, each value boxed |
| SafeDictModel.NullGivesDefaults | CompanyName.ProjectName/PixelMEDIA.PixelCore/SafeDict.cs:23-33 | a wrapper built from null answers every getter with its default |
| SafeDictModel.GetValueExact | CompanyName.ProjectName/PixelMEDIA.PixelCore/SafeDict.cs:138-147 | a stored null always yields the default; a value of the requested type is returned as it is |
| SafeDictModel.NoWidening | CompanyName.ProjectName/PixelMEDIA.PixelCore/SafeDict.cs:94-102 | a stored Int64 gives GetInt's default, and a stored Int32 gives GetLong's default |
| SafeDictModel.GetDictOfNonDict | CompanyName.ProjectName/PixelMEDIA.PixelCore/SafeDict.cs:56 | the wrapper of a missing or non-dictionary value answers every lookup with the default |
| SafeDictModel.GetDictThenGetValue | CompanyName.ProjectName/PixelMEDIA.PixelCore/SafeDict.cs:56 | a lookup through GetDict is the lookup in the nested dictionary |
| SafeDictModel.StringIsNotParsedAsInt | CompanyName.ProjectName/PixelMEDIA.PixelCore/SafeDict.cs:140-146 | a stored string is not parsed: GetInt gives its default, GetString the string |
| PagedSortedListModel.CeilDiv | CompanyName.ProjectName/PixelMEDIA.PixelCore/PagedSortedList.cs:94 | the least integer at or above the rational quotient, for either sign of the divisor |
| PagedSortedListModel.TotalPagesOf | CompanyName.ProjectName/PixelMEDIA.PixelCore/PagedSortedList.cs:94 | the exact ceiling of totalItems / itemsPerPage, or OverflowException for a zero page size or a ceiling outside Int32 |
| PagedSortedListModel.New | CompanyName.ProjectName/PixelMEDIA.PixelCore/PagedSortedList.cs:83-99 | the constructor fails exactly when TotalPages overflows; otherwise it stores the page, the counters and the sort and filter settings, TotalPages is TotalPagesOf's value, HasPrevious holds exactly when the page is after the first, and HasNext holds exactly when TotalItems exceeds the unchecked 32-bit product of page and page size |
| PagedSortedListModel.HasNextWithoutOverflow | CompanyName.ProjectName/PixelMEDIA.PixelCore/PagedSortedList.cs:92 | when the product of page and page size fits in 32 bits, HasNext compares TotalItems with the exact product, for page numbers and sizes of every sign |
| PagedSortedListModel.TotalPagesIsCeiling | CompanyName.ProjectName/PixelMEDIA.PixelCore/PagedSortedList.cs:94 | for a positive page size, TotalPages pages hold every item and one page fewer do not |
| PagedSortedListModel.HasNextIffBeforeLastPage | CompanyName.ProjectName/PixelMEDIA.PixelCore/PagedSortedList.cs:92-94 | for a positive page size, a non-negative item count and page number, and a page-size product that fits in 32 bits, HasNext holds exactly when the current page is before TotalPages |
| PagedSortedListModel.HasNextIffNextPageNonEmpty | CompanyName.ProjectName/PixelMEDIA.PixelCore/PagedSortedList.cs:92 | HasNext holds exactly when TakePage finds a non-empty next page in a collection of TotalItems elements |
| PagedSortedListModel.TwentyFiveItemsExample | CompanyName.ProjectName/PixelMEDIA.PixelCore/PagedSortedList.cs:91-94 | 25 items at 10 per page make 3 pages; page 1 has only a next page and page 3 only a previous one |
| PagedSortedListModel.MinValueOverMinusOneOverflows | CompanyName.ProjectName/PixelMEDIA.PixelCore/PagedSortedList.cs:94 | int.MinValue items at -1 per page overflow Convert.ToInt32 |
| CollectionHelper.CollectionContains | CompanyName.ProjectName/PixelMEDIA.PixelCore/Helpers/CollectionHelper.cs:21-36 | true exactly when the value is an element of the collection |
| CollectionHelper.TakePage | CompanyName.ProjectName/PixelMEDIA.PixelCore/Helpers/CollectionHelper.cs:46-49 | the page holds at most pageSize elements (none for a negative size) |
| CollectionHelper.TakePageSlice | CompanyName.ProjectName/PixelMEDIA.PixelCore/Helpers/CollectionHelper.cs:46-49 | for page p >= 1 and no overflow, the page is the elements at positions (p-1)*size up to min(n, p*size), in order |
| CollectionHelper.TakePageBeforeFirst | CompanyName.ProjectName/PixelMEDIA.PixelCore/Helpers/CollectionHelper.cs:46-49 | a page number below 1, without overflow, gives the first page, because Skip of a negative count skips nothing |
| CollectionHelper.TakePageOffsetWraps | CompanyName.ProjectName/PixelMEDIA.PixelCore/Helpers/CollectionHelper.cs:46-49 | the offset is unchecked 32-bit arithmetic: page 2^30 + 1 of size 4 has offset 2^32, which wraps to 0, so it is the first page |
| CollectionHelper.GetNthRoundRobinItem | CompanyName.ProjectName/PixelMEDIA.PixelCore/Helpers/CollectionHelper.cs:79-89 | DivideByZeroException for an empty list; otherwise the element at position mod count, negative positions included |
| CollectionHelper.RoundRobinShift | CompanyName.ProjectName/PixelMEDIA.PixelCore/Helpers/CollectionHelper.cs:83-88 | the negative-position shift with C#'s truncating remainder lands on the Euclidean residue |
| CollectionHelper.RoundRobinPeriodic | CompanyName.ProjectName/PixelMEDIA.PixelCore/Helpers/CollectionHelper.cs:79-89 | moving the position by the list length picks the same element |
| CollectionHelper.Range | CompanyName.ProjectName/PixelMEDIA.PixelCore/Helpers/CollectionHelper.cs:97-106 | the integers first to last in increasing order, empty when first > last |
| CollectionHelper.InclusiveRangeList | CompanyName.ProjectName/PixelMEDIA.PixelCore/Helpers/CollectionHelper.cs:97-106 | the loop builds exactly first, first + 1, ..., last |
| CollectionHelper.InclusiveRangeListTo | CompanyName.ProjectName/PixelMEDIA.PixelCore/Helpers/CollectionHelper.cs:113-116 | exactly 0, 1, ..., last |
| CollectionHelper.InclusiveRangeArray | CompanyName.ProjectName/PixelMEDIA.PixelCore/Helpers/CollectionHelper.cs:124-127 | a new array holding first, ..., last |
| CollectionHelper.InclusiveRangeArrayTo | CompanyName.ProjectName/PixelMEDIA.PixelCore/Helpers/CollectionHelper.cs:134-137 | a new array holding 0, ..., last |
| CollectionHelper.ToArray | CompanyName.ProjectName/PixelMEDIA.PixelCore/Helpers/CollectionHelper.cs:126 | a new array with the list's elements in order |
| CollectionHelper.MakeArray | CompanyName.ProjectName/PixelMEDIA.PixelCore/Helpers/CollectionHelper.cs:145-148 | the params array itself, not a copy |
| CollectionHelper.MakeList | CompanyName.ProjectName/PixelMEDIA.PixelCore/Helpers/CollectionHelper.cs:156-159 | a list of the same length with the same elements in the same order |
| ConversionHelper.MakeJsonDict | CompanyName.ProjectName/PixelMEDIA.PixelCore/Helpers/ConversionHelper.cs:22-32 | a dictionary with the same keys, each value boxed |
| ConversionHelper.SafeParseOr | CompanyName.ProjectName/PixelMEDIA.PixelCore/Helpers/ConversionHelper.cs:63-75 | the shape shared by the SafeConvert overloads: the TryParse value when the string is not null and parses, otherwise the default |
| ConversionHelper.SafeConvertGuidOr | CompanyName.ProjectName/PixelMEDIA.PixelCore/Helpers/ConversionHelper.cs:63-75 | the parsed GUID when the string is not null and parses, otherwise the default |
| ConversionHelper.SafeConvertGuid | CompanyName.ProjectName/PixelMEDIA.PixelCore/Helpers/ConversionHelper.cs:52-55 | the parsed GUID when the string is not null and parses, otherwise Guid.Empty |
| ConversionHelper.ConvertAllGuids | CompanyName.ProjectName/PixelMEDIA.PixelCore/Helpers/ConversionHelper.cs:41-45 | each string converted in place, with Guid.Empty for null or unparseable ones |
| ConversionHelper.SafeConvertGuidArray | CompanyName.ProjectName/PixelMEDIA.PixelCore/Helpers/ConversionHelper.cs:41-45 | Guid.Empty never appears; the result is a subsequence of the converted strings and keeps every copy of every non-empty GUID, so it is exactly the non-empty conversions in their original order |
| ConversionHelper.SafeConvertIntOr | CompanyName.ProjectName/PixelMEDIA.PixelCore/Helpers/ConversionHelper.cs:133-145 | the parsed Int32 when the string is not null and parses, otherwise the default |
| ConversionHelper.SafeConvertInt | CompanyName.ProjectName/PixelMEDIA.PixelCore/Helpers/ConversionHelper.cs:122-125 | the parsed Int32 when the string is not null and parses; 0 for a null or unparseable string |
| ConversionHelper.SafeConvertObjectIntOr | CompanyName.ProjectName/PixelMEDIA.PixelCore/Helpers/ConversionHelper.cs:153-156 | parses Convert.ToString(o): a null object parses "", a boxed string parses that string, and any other object parses its ToString() |
| ConversionHelper.SafeConvertObjectInt | CompanyName.ProjectName/PixelMEDIA.PixelCore/Helpers/ConversionHelper.cs:163-166 | the object overload with default 0: null parses "", a boxed string parses that string, and any other object parses its ToString() |
| ConversionHelper.SafeConvertString | CompanyName.ProjectName/PixelMEDIA.PixelCore/Helpers/ConversionHelper.cs:237-240 | the string itself, or "" for null |
| ConversionHelper.SafeConvertObjectString | CompanyName.ProjectName/PixelMEDIA.PixelCore/Helpers/ConversionHelper.cs:247-250 | Convert.ToString of the object: "" for null, the string itself for a string, otherwise the object's ToString() |
| ConversionHelper.SafeConvertStringOverloadsAgree | CompanyName.ProjectName/PixelMEDIA.PixelCore/Helpers/ConversionHelper.cs:237-250 | the object overload agrees with the string overload on null and on every string |
| ConversionHelper.GetLabelFromPascalCase | CompanyName.ProjectName/PixelMEDIA.PixelCore/Helpers/ConversionHelper.cs:227-230 | one character longer per lower-upper pair, with the same first character |
| ConversionHelper.LabelCharAt | CompanyName.ProjectName/PixelMEDIA.PixelCore/Helpers/ConversionHelper.cs:227-230 | the i-th input character is at i plus the number of pairs before it, and a space follows it when a pair starts at i |
| ConversionHelper.LabelPositions | CompanyName.ProjectName/PixelMEDIA.PixelCore/Helpers/ConversionHelper.cs:227-230 | every input character keeps its order, shifted by the pairs before it, a space follows the lower-case letter of every pair, and the length leaves room for nothing else: this fixes the output of every input, its own spaces included |
| ConversionHelper.LabelSplitsAtSpace | CompanyName.ProjectName/PixelMEDIA.PixelCore/Helpers/ConversionHelper.cs:227-230 | a space of the input is never part of a pair, so converting x + " " + y converts x and y on their own around that space |
| ConversionHelper.LabelInsertsOnlySpaces | CompanyName.ProjectName/PixelMEDIA.PixelCore/Helpers/ConversionHelper.cs:227-230 | removing the spaces from input and output gives the same text; where the spaces go is stated by LabelPositions |
| ConversionHelper.LabelHasNoBoundary | CompanyName.ProjectName/PixelMEDIA.PixelCore/Helpers/ConversionHelper.cs:227-230 | the output has no lower-case letter directly followed by an upper-case one |
| ConversionHelper.LabelOfNoBoundary | CompanyName.ProjectName/PixelMEDIA.PixelCore/Helpers/ConversionHelper.cs:227-230 | a string without a lower-upper pair is returned unchanged |
| ConversionHelper.LabelIdempotent | CompanyName.ProjectName/PixelMEDIA.PixelCore/Helpers/ConversionHelper.cs:227-230 | labelling twice is labelling once, and a string is unchanged exactly when it has no lower-upper pair |
| ConversionHelper.LabelExample | CompanyName.ProjectName/PixelMEDIA.PixelCore/Helpers/ConversionHelper.cs:227-230 | "tName" becomes "t Name" |
| DateHelper.New | CompanyName.ProjectName/PixelMEDIA.PixelCore/Helpers/DateHelper.cs:98 | new DateTime succeeds exactly for a valid date and time, else ArgumentOutOfRangeException |
| DateHelper.NextDay | CompanyName.ProjectName/PixelMEDIA.PixelCore/Helpers/DateHelper.cs:189 | the next date at the same time of day, one day number later; none only for 31 December 9999 |
| DateHelper.PrevDay | CompanyName.ProjectName/PixelMEDIA.PixelCore/Helpers/DateHelper.cs:101 | the previous date at the same time of day, one day number earlier; none only for 1 January of the year 1 |
| DateHelper.AddDays | CompanyName.ProjectName/PixelMEDIA.PixelCore/Helpers/DateHelper.cs:189 | the date n day numbers away at the same time of day, or ArgumentOutOfRangeException exactly when that date is outside the years 1 to 9999 |
| DateHelper.DayNumberBound | CompanyName.ProjectName/PixelMEDIA.PixelCore/Helpers/DateHelper.cs:187-190 | every valid date has a day number between 0 and that of 31 December 9999 |
| DateHelper.DayNumberInjective | CompanyName.ProjectName/PixelMEDIA.PixelCore/Helpers/DateHelper.cs:187-190 | two valid dates at the same time of day with the same day number are equal |
| DateHelper.FirstDayOfYear | CompanyName.ProjectName/PixelMEDIA.PixelCore/Helpers/DateHelper.cs:78-81 | a valid date |
| DateHelper.FirstDayOfYearIsFirst | CompanyName.ProjectName/PixelMEDIA.PixelCore/Helpers/DateHelper.cs:78-81 | midnight of the first date of d's year: no later than d, within one year length of it, and the day before is in the previous year |
| DateHelper.LastDayOfYear | CompanyName.ProjectName/PixelMEDIA.PixelCore/Helpers/DateHelper.cs:94-102 | ArgumentOutOfRangeException exactly for the year 9999; otherwise the date at midnight one day before 1 January of the next year |
| DateHelper.LastDayOfYearIsLast | CompanyName.ProjectName/PixelMEDIA.PixelCore/Helpers/DateHelper.cs:94-102 | 31 December of d's year at midnight, no earlier than d, with the next day in the next year; ArgumentOutOfRangeException exactly for the year 9999 |
| DateHelper.StartOfMonth | CompanyName.ProjectName/PixelMEDIA.PixelCore/Helpers/DateHelper.cs:130-133 | a valid date |
| DateHelper.StartOfMonthIsFirst | CompanyName.ProjectName/PixelMEDIA.PixelCore/Helpers/DateHelper.cs:130-133 | midnight of the first date of d's month, d.Day - 1 days before d, with the day before in another month |
| DateHelper.EndOfMonth | CompanyName.ProjectName/PixelMEDIA.PixelCore/Helpers/DateHelper.cs:109-113 | ArgumentOutOfRangeException exactly for December; otherwise the date at 23:59:59 one day before the first of the next month |
| DateHelper.EndOfMonthIsLast | CompanyName.ProjectName/PixelMEDIA.PixelCore/Helpers/DateHelper.cs:109-113 | for January to November, the last date of d's month at 23:59:59, whose next day is in the next month; ArgumentOutOfRangeException exactly for December |
| DateHelper.EndOfMonthIntendedIsLast | CompanyName.ProjectName/PixelMEDIA.PixelCore/Helpers/DateHelper.cs:109-113 | the intended end of the month is always defined, is the month's last date at 23:59:59, and agrees with EndOfMonth for January to November |
| DateHelper.EndOfMonthDecemberFails | CompanyName.ProjectName/PixelMEDIA.PixelCore/Helpers/DateHelper.cs:111 | EndOfMonth of 15 December 2024 fails where the intended end of the month is 31 December 2024 23:59:59 |
| DateHelper.IsLeapYear | CompanyName.ProjectName/PixelMEDIA.PixelCore/Helpers/DateHelper.cs:149-152 | an answer exactly for the years 1 to 9999, ArgumentOutOfRangeException otherwise |
| DateHelper.LeapYearHasFebruary29 | CompanyName.ProjectName/PixelMEDIA.PixelCore/Helpers/DateHelper.cs:149-152 | a year is a leap year exactly when 29 February exists in it, and exactly when it has 366 days |
| DateHelper.LeapYearPeriod | CompanyName.ProjectName/PixelMEDIA.PixelCore/Helpers/DateHelper.cs:149-152 | the answer repeats every 400 years |
| DateHelper.LeapYearExamples | CompanyName.ProjectName/PixelMEDIA.PixelCore/Helpers/DateHelper.cs:149-152 | 1900 is not a leap year, 2000 and 2024 are, and the years 0 and 10000 are refused |
| DateHelper.GetDaysInRangeInclusive | CompanyName.ProjectName/PixelMEDIA.PixelCore/Helpers/DateHelper.cs:181-193 | dayCount + 1 consecutive dates from startDate at its time of day (none for a negative count), or ArgumentOutOfRangeException exactly when the run would pass 31 December 9999 |
| DateHelper.ConsecutiveSteps | CompanyName.ProjectName/PixelMEDIA.PixelCore/Helpers/DateHelper.cs:187-190 | the run starts at startDate and each date is the next day of the one before |
| ExeCacheProviderModel.CastTo | CompanyName.ProjectName/PixelMEDIA.PixelExe/Providers/ExeCacheProvider.cs:52 | the cast (T)obj: the unboxed value, null for a reference type, NullReferenceException for null as a value type, InvalidCastException for any other mismatch |
| ExeCacheProviderModel.Lookup | CompanyName.ProjectName/PixelMEDIA.PixelExe/Providers/ExeCacheProvider.cs:31-42 | the stored object for a present key, null for a missing one |
| ExeCacheProviderModel.ExeCacheProvider.constructor | CompanyName.ProjectName/PixelMEDIA.PixelExe/Providers/ExeCacheProvider.cs:20-24 | both caches start empty, so every key reads back null |
| ExeCacheProviderModel.ExeCacheProvider.GetSessionCacheItem | CompanyName.ProjectName/PixelMEDIA.PixelExe/Providers/ExeCacheProvider.cs:31-42 | a non-null result is the object stored under the key; a missing key gives null |
| ExeCacheProviderModel.ExeCacheProvider.GetSessionCacheItemAs | CompanyName.ProjectName/PixelMEDIA.PixelExe/Providers/ExeCacheProvider.cs:50-53 | the stored object, or null for a missing key, cast to T |
| ExeCacheProviderModel.ExeCacheProvider.SetSessionCacheItem | CompanyName.ProjectName/PixelMEDIA.PixelExe/Providers/ExeCacheProvider.cs:62-66 | stores or overwrites the key in the session cache only, returns the value, and every other key reads as before |
| ExeCacheProviderModel.ExeCacheProvider.HasSessionCacheItem | CompanyName.ProjectName/PixelMEDIA.PixelExe/Providers/ExeCacheProvider.cs:73-76 | true exactly when the key is present with a non-null object |
| ExeCacheProviderModel.ExeCacheProvider.GetApplicationCacheItem | CompanyName.ProjectName/PixelMEDIA.PixelExe/Providers/ExeCacheProvider.cs:83-94 | a non-null result is the object stored under the key; a missing key gives null |
| ExeCacheProviderModel.ExeCacheProvider.GetApplicationCacheItemAs | CompanyName.ProjectName/PixelMEDIA.PixelExe/Providers/ExeCacheProvider.cs:102-105 | the stored object, or null for a missing key, cast to T |
| ExeCacheProviderModel.ExeCacheProvider.SetApplicationCacheItem | CompanyName.ProjectName/PixelMEDIA.PixelExe/Providers/ExeCacheProvider.cs:114-118 | stores or overwrites the key in the application cache only, returns the value, and every other key reads as before |
| ExeCacheProviderModel.ExeCacheProvider.HasApplicationCacheItem | CompanyName.ProjectName/PixelMEDIA.PixelExe/Providers/ExeCacheProvider.cs:125-128 | true exactly when the key is present with a non-null object |
| ExeCacheProviderModel.TypedReadBack | CompanyName.ProjectName/PixelMEDIA.PixelExe/Providers/ExeCacheProvider.cs:50-66 | a typed read after a write of the same type returns the value written |
| ExportHelper.DoubleQuotes | CompanyName.ProjectName/PixelMEDIA.PixelCore/Helpers/ExportHelper.cs:32-33 | never shorter than its input |
| ExportHelper.DoubleQuotesNeedsQuotes | CompanyName.ProjectName/PixelMEDIA.PixelCore/Helpers/ExportHelper.cs:32-36 | doubling the quotes does not change whether the field needs quoting |
| ExportHelper.EscapeCsv | CompanyName.ProjectName/PixelMEDIA.PixelCore/Helpers/ExportHelper.cs:27-30 | null becomes the empty field |
| ExportHelper.EscapeCsvQuotingIff | CompanyName.ProjectName/PixelMEDIA.PixelCore/Helpers/ExportHelper.cs:25-39 | a field without ',', '"' or '\n' is unchanged, and the result is wrapped in quotes exactly when the field has one of them |
| ExportHelper.CarriageReturnIsNotQuoted | CompanyName.ProjectName/PixelMEDIA.PixelCore/Helpers/ExportHelper.cs:18 | a lone '\r' does not cause quoting |
| ExportHelper.CommaAndQuoteAreQuoted | CompanyName.ProjectName/PixelMEDIA.PixelCore/Helpers/ExportHelper.cs:32-36 | a comma is quoted; a quote is doubled and quoted |
| ExportHelper.GetCsvLine | CompanyName.ProjectName/PixelMEDIA.PixelCore/Helpers/ExportHelper.cs:42-45 | no fields give "", and a single field is its escaped form; ParseCsvLine and PlainCsvLine state the rest |
| ExportHelper.PlainCsvLine | CompanyName.ProjectName/PixelMEDIA.PixelCore/Helpers/ExportHelper.cs:42-45 | fields that need no quoting are written as they are, null as "", joined by ',' |
| ExportHelper.GetCsvLineOfObjects | CompanyName.ProjectName/PixelMEDIA.PixelCore/Helpers/ExportHelper.cs:47-50 | no values give ""; otherwise an RFC 4180 reader gives back the Convert.ToString of each value, in order |
| ExportHelper.ParseEscapedField | CompanyName.ProjectName/PixelMEDIA.PixelCore/Helpers/ExportHelper.cs:25-39 | an RFC 4180 reader gives back the escaped field, null as the empty field |
| ExportHelper.ParseCsvLine | CompanyName.ProjectName/PixelMEDIA.PixelCore/Helpers/ExportHelper.cs:42-45 | reading an emitted line gives back its fields in order |
| ExportHelper.ParseCsvLines | CompanyName.ProjectName/PixelMEDIA.PixelCore/Helpers/ExportHelper.cs:65-72 | reading lines joined by '\n' gives back every record in order |
| ExportHelper.GetCsv | CompanyName.ProjectName/PixelMEDIA.PixelCore/Helpers/ExportHelper.cs:59-75 | the header of the exported property names, then one '\n'-prefixed line per item; TargetException when a property is read from a null item |
| ExportHelper.WriteCsv | CompanyName.ProjectName/PixelMEDIA.PixelCore/Helpers/ExportHelper.cs:63-74 | the StringBuilder loop produces exactly the CSV document, or TargetException for a null item |
| ExportHelper.CsvStep | CompanyName.ProjectName/PixelMEDIA.PixelCore/Helpers/ExportHelper.cs:67-72 | one more item adds '\n' and its line to the document |
| ExportHelper.GetCsvRoundTrip | CompanyName.ProjectName/PixelMEDIA.PixelCore/Helpers/ExportHelper.cs:59-75 | reading the CSV back gives the property names, then for each item the Convert.ToString of its property values, in order |
| StringHelper.TrimStart | CompanyName.ProjectName/PixelMEDIA.PixelCore/Helpers/StringHelper.cs:83 | a suffix of the input that does not start with white space, and only white space was removed |
| StringHelper.TrimEnd | CompanyName.ProjectName/PixelMEDIA.PixelCore/Helpers/StringHelper.cs:83 | a prefix of the input that does not end with white space, and only white space was removed |
| StringHelper.Trim | CompanyName.ProjectName/PixelMEDIA.PixelCore/Helpers/StringHelper.cs:83 | the input with white space cut from both ends only, neither end of the result white space |
| StringHelper.SafeTrim | CompanyName.ProjectName/PixelMEDIA.PixelCore/Helpers/StringHelper.cs:81-84 | "" for null or empty input, otherwise the trimmed string |
| StringHelper.TrimIdempotent | CompanyName.ProjectName/PixelMEDIA.PixelCore/Helpers/StringHelper.cs:81-84 | trimming twice is trimming once |
| StringHelper.Left | CompanyName.ProjectName/PixelMEDIA.PixelCore/Helpers/StringHelper.cs:115-129 | "" for null or empty input; ArgumentOutOfRangeException for a negative length; otherwise the first min(length, n) characters |
| StringHelper.Ellipsize | CompanyName.ProjectName/PixelMEDIA.PixelCore/Helpers/StringHelper.cs:93-107 | "" for null or empty input; ArgumentOutOfRangeException for a negative length; the string when it is shorter than the length; otherwise its first length characters followed by "..." |
| StringHelper.EllipsizeIsLeftPlusDots | CompanyName.ProjectName/PixelMEDIA.PixelCore/Helpers/StringHelper.cs:93-129 | Ellipsize is Left plus "..." exactly when the string is not shorter than the length |
| StringHelper.SplitChars | CompanyName.ProjectName/PixelMEDIA.PixelCore/Helpers/StringHelper.cs:42 | at least one piece, and no piece holds a separator |
| StringHelper.SplitCountsWordStarts | CompanyName.ProjectName/PixelMEDIA.PixelCore/Helpers/StringHelper.cs:42 | splitting and dropping empty pieces counts exactly the positions where a word starts |
| StringHelper.GetWordCount | CompanyName.ProjectName/PixelMEDIA.PixelCore/Helpers/StringHelper.cs:34-44 | 0 for null text; otherwise the number of word starts, a non-delimiter at the start of the text or after one of the delimiters |
| StringHelper.GetWordCountSpec | CompanyName.ProjectName/PixelMEDIA.PixelCore/Helpers/StringHelper.cs:34-44 | the word count is the number of non-delimiters at the start of the text or after a delimiter |
| StringHelper.WordCountExample | CompanyName.ProjectName/PixelMEDIA.PixelCore/Helpers/StringHelper.cs:34-44 | "a, b" has two words |
| StringHelper.IndexOf | CompanyName.ProjectName/PixelMEDIA.PixelCore/Helpers/StringHelper.cs:60 | the first position at which the separator occurs, or none when it occurs nowhere |
| StringHelper.ExtractKeyValuePairs | CompanyName.ProjectName/PixelMEDIA.PixelCore/Helpers/StringHelper.cs:52-74 | the loop builds the dictionary of KeyValuePairs, or fails with its error |
| StringHelper.AddPairsStep | CompanyName.ProjectName/PixelMEDIA.PixelCore/Helpers/StringHelper.cs:58-70 | one line adds its pair, or fails when its key is already there |
| StringHelper.AddPairsOkIff | CompanyName.ProjectName/PixelMEDIA.PixelCore/Helpers/StringHelper.cs:58-70 | the pairs go in exactly when the keys are distinct and new; otherwise ArgumentException for a duplicate key |
| StringHelper.AddPairsKeys | CompanyName.ProjectName/PixelMEDIA.PixelCore/Helpers/StringHelper.cs:58-70 | on success the keys are the earlier keys and the lines' keys, and no others |
| StringHelper.AddPairsValues | CompanyName.ProjectName/PixelMEDIA.PixelCore/Helpers/StringHelper.cs:58-70 | on success every earlier entry stays and every line's key maps to that line's value |
| StringHelper.KeyValuePairsSpec | CompanyName.ProjectName/PixelMEDIA.PixelCore/Helpers/StringHelper.cs:52-74 | ExtractKeyValuePairs fails exactly when two non-empty lines share a key; otherwise each key maps to the text after its first separator |
| StringHelper.ShortestBody | CompanyName.ProjectName/PixelMEDIA.PixelCore/Helpers/StringHelper.cs:23-24 | the lazy quantifier's choice: the shortest newline-free body followed by the end marker, or none |
| StringHelper.FirstMatch | CompanyName.ProjectName/PixelMEDIA.PixelCore/Helpers/StringHelper.cs:23-24 | the leftmost position with a match and its shortest body, or none when the pattern matches nowhere |
| StringHelper.ExtractBetween | CompanyName.ProjectName/PixelMEDIA.PixelCore/Helpers/StringHelper.cs:21-26 | ArgumentNullException exactly when an argument is null |
| StringHelper.ExtractBetweenSpec | CompanyName.ProjectName/PixelMEDIA.PixelCore/Helpers/StringHelper.cs:21-26 | "" exactly when start(.+?)end matches nowhere; otherwise the body of the leftmost, shortest match |
| StringHelper.ExtractBetweenFound | CompanyName.ProjectName/PixelMEDIA.PixelCore/Helpers/StringHelper.cs:21-26 | when a match exists, the result is non-empty, has no '\n', and sits between a start and an end marker in the text |
| StringHelper.ExtractBetweenExample | CompanyName.ProjectName/PixelMEDIA.PixelCore/Helpers/StringHelper.cs:21-26 | the text between the first "<b>" and the next "</b>" is "x" |
| ReflectionHelper.Instance.constructor | CompanyName.ProjectName/PixelMEDIA.PixelCore/Helpers/ReflectionHelper.cs:51-68 | an object of the given type with the given property values |
| ReflectionHelper.FirstNamed | CompanyName.ProjectName/PixelMEDIA.PixelCore/Helpers/ReflectionHelper.cs:143 | the first property with the name, or none exactly when no property has it |
| ReflectionHelper.GetGetableProperties | CompanyName.ProjectName/PixelMEDIA.PixelCore/Helpers/ReflectionHelper.cs:102-117 | the readable properties with a public getter, in declaration order |
| ReflectionHelper.GetSpecifiedPropertiesInFieldNameOrder | CompanyName.ProjectName/PixelMEDIA.PixelCore/Helpers/ReflectionHelper.cs:136-152 | the loop builds exactly the field-name ordering of the properties |
| ReflectionHelper.GetGetablePropertiesNamed | CompanyName.ProjectName/PixelMEDIA.PixelCore/Helpers/ReflectionHelper.cs:125-128 | the getable properties in field-name order |
| ReflectionHelper.FieldNameOrderSpec | CompanyName.ProjectName/PixelMEDIA.PixelCore/Helpers/ReflectionHelper.cs:136-152 | with no field names the properties are unchanged; otherwise one entry per field name that names a property, in field-name order, each the first property of that name |
| ReflectionHelper.PicksSpec | CompanyName.ProjectName/PixelMEDIA.PixelCore/Helpers/ReflectionHelper.cs:140-148 | the picked properties are named by the field names that name a property, and each is the first of its name |
| ReflectionHelper.CopyProperties | CompanyName.ProjectName/PixelMEDIA.PixelCore/Helpers/ReflectionHelper.cs:51-68 | NullReferenceException for a null argument, leaving the target alone; otherwise the target values and result are those of CopyRest, over the target's runtime type, which never changes |
| ReflectionHelper.CopyRestSpec | CompanyName.ProjectName/PixelMEDIA.PixelCore/Helpers/ReflectionHelper.cs:56-66 | a name carried by a matching source property takes the source value and every other name keeps its value; ArgumentException exactly when a matching source property has no getter |
| Values.ObjectEquals | CompanyName.ProjectName/PixelMEDIA.PixelCore/Helpers/ReflectionHelper.cs:170 | the static Object.Equals: true for two nulls, false when exactly one is null, otherwise the Equals override |
| ReflectionHelper.ShallowCompare | CompanyName.ProjectName/PixelMEDIA.PixelCore/Helpers/ReflectionHelper.cs:161-177 | true for a type without getable properties; TargetException for a null object otherwise; for two objects, true exactly when every getable property has equal values |
| ReflectionHelper.SetPropertyValue | CompanyName.ProjectName/PixelMEDIA.PixelCore/Helpers/ReflectionHelper.cs:185-201 | sets the named property to the converted value when the property exists, has a setter and the conversion succeeds; otherwise the object is unchanged |
| LoggerModel.StringBuilder.AppendLine | CompanyName.ProjectName/PixelMEDIA.PixelCore/Helpers/Logger.cs:240-243 | appends one line and changes nothing else |
| LoggerModel.Chain | CompanyName.ProjectName/PixelMEDIA.PixelCore/Helpers/Logger.cs:242-244 | the exception chain starts with the exception itself |
| LoggerModel.GetException | CompanyName.ProjectName/PixelMEDIA.PixelCore/Helpers/Logger.cs:238-245 | appends the lines of the whole InnerException chain |
| LoggerModel.GetFullExceptionText | CompanyName.ProjectName/PixelMEDIA.PixelCore/Helpers/Logger.cs:231-236 | the text is the exception's lines, each followed by a new line |
| LoggerModel.ExceptionLinesShape | CompanyName.ProjectName/PixelMEDIA.PixelCore/Helpers/Logger.cs:238-245 | for a chain of k exceptions: 3k - 1 lines, each exception's Source/Message line and Stack Trace line in chain order, and separators between them |
| LoggerModel.SeparatorCount | CompanyName.ProjectName/PixelMEDIA.PixelCore/Helpers/Logger.cs:243 | exactly k - 1 separator lines |
| LoggerModel.KeptLabelsIsFilterOfReversed | CompanyName.ProjectName/PixelMEDIA.PixelCore/Helpers/Logger.cs:161-182 | the path is the labels of the kept frames, visited last to first |
| LoggerModel.GetMethodPath | CompanyName.ProjectName/PixelMEDIA.PixelCore/Helpers/Logger.cs:156-184 | the reverse loop builds the kept labels joined by "/" |
| LoggerModel.KeptLabelsSpec | CompanyName.ProjectName/PixelMEDIA.PixelCore/Helpers/Logger.cs:156-184 | the path is "" exactly when no frame is kept, and every label belongs to a kept frame |
| LoggerModel.Gate | CompanyName.ProjectName/PixelMEDIA.PixelCore/Helpers/Logger.cs:198-222 | an entry that passes keeps its level, and Error and Fatal always pass |
| LoggerModel.FullMessage | CompanyName.ProjectName/PixelMEDIA.PixelCore/Helpers/Logger.cs:196 | the entry text: the IP address and identifier in brackets, the application location, the message, then the call path in parentheses |
| LoggerModel.GateSpec | CompanyName.ProjectName/PixelMEDIA.PixelCore/Helpers/Logger.cs:198-222 | Error and Fatal always pass; the other levels pass exactly when forced or enabled; the level is kept |
| LoggerModel.Logger.constructor | CompanyName.ProjectName/PixelMEDIA.PixelCore/Helpers/Logger.cs:17 | no client property provider and nothing written |
| LoggerModel.Logger.SetClientPropertyProvider | CompanyName.ProjectName/PixelMEDIA.PixelCore/Helpers/Logger.cs:23-26 | sets the provider and writes nothing |
| LoggerModel.Logger.LogEntry | CompanyName.ProjectName/PixelMEDIA.PixelCore/Helpers/Logger.cs:192-223 | NullReferenceException without a provider; otherwise the formatted entry is written exactly when the gate opens |
| LoggerModel.Logger.Log | CompanyName.ProjectName/PixelMEDIA.PixelCore/Helpers/Logger.cs:102-125 | the text of the message, the formatted message or the exception goes through the unforced gate |
| LoggerModel.Logger.Info | CompanyName.ProjectName/PixelMEDIA.PixelCore/Helpers/Logger.cs:33-43 | NullReferenceException and nothing written without a client property provider; otherwise an Information entry, written exactly when Info is enabled |
| LoggerModel.Logger.Warn | CompanyName.ProjectName/PixelMEDIA.PixelCore/Helpers/Logger.cs:50-60 | NullReferenceException and nothing written without a client property provider; otherwise a Warning entry, written exactly when Warn is enabled |
| LoggerModel.Logger.Error | CompanyName.ProjectName/PixelMEDIA.PixelCore/Helpers/Logger.cs:67-77 | NullReferenceException and nothing written without a client property provider; otherwise an Error entry, always written |
| LoggerModel.Logger.Fatal | CompanyName.ProjectName/PixelMEDIA.PixelCore/Helpers/Logger.cs:84-94 | NullReferenceException and nothing written without a client property provider; otherwise a Fatal entry, always written |
| RandomHelper.Random.Next | CompanyName.ProjectName/PixelMEDIA.PixelCore/Helpers/RandomHelper.cs:27 | a value below the bound, recorded as drawn |
| RandomHelper.Chosen | CompanyName.ProjectName/PixelMEDIA.PixelCore/Helpers/RandomHelper.cs:27 | one character per draw |
| RandomHelper.GetRandomAlphanumericString | CompanyName.ProjectName/PixelMEDIA.PixelCore/Helpers/RandomHelper.cs:21-31 | OverflowException for a negative size; otherwise size new draws, each choosing one of the 62 alphanumerics in turn |
| RandomHelper.RandomStringSpec | CompanyName.ProjectName/PixelMEDIA.PixelCore/Helpers/RandomHelper.cs:14 | every character is one of the 62 and the i-th is chosen by the i-th draw |
| PixelControllerModel.MessageList.Add | CompanyName.ProjectName/PixelMEDIA.PixelWeb/Components/PixelController.cs:207 | appends the message |
| PixelControllerModel.Appended | CompanyName.ProjectName/PixelMEDIA.PixelWeb/Components/PixelController.cs:205-249 | adding messages appends them to a list, creates the list on first use, and fails on a non-list entry |
| PixelControllerModel.AppendedTwice | CompanyName.ProjectName/PixelMEDIA.PixelWeb/Components/PixelController.cs:227 | adding in two batches is adding the concatenation |
| PixelControllerModel.NonBlank | CompanyName.ProjectName/PixelMEDIA.PixelWeb/Components/PixelController.cs:207 | the kept messages are not null or white space, and no more than were given |
| PixelControllerModel.NonBlankPrefix | CompanyName.ProjectName/PixelMEDIA.PixelWeb/Components/PixelController.cs:227 | a prefix keeps no more messages than the whole |
| PixelControllerModel.NonBlankSnoc | CompanyName.ProjectName/PixelMEDIA.PixelWeb/Components/PixelController.cs:227 | one more message adds its own kept part |
| PixelControllerModel.ParsedOrEmpty | CompanyName.ProjectName/PixelMEDIA.PixelWeb/Components/PixelController.cs:161-181 | Guid.TryParse leaves Guid.Empty for null or unparseable text |
| PixelControllerModel.AccessDecision | CompanyName.ProjectName/PixelMEDIA.PixelWeb/Components/PixelController.cs:154-199 | no configured GUID lets the request in; the cookie is set only to the request value, and only when it parses to the configured GUID; a forbidden request's cookie did not match |
| PixelControllerModel.AccessDecisionSpec | CompanyName.ProjectName/PixelMEDIA.PixelWeb/Components/PixelController.cs:154-199 | no configured GUID lets everyone in; otherwise a request passes exactly when its cookie or non-empty request value parses to the configured GUID, and only the request value sets the cookie |
| PixelControllerModel.UnparseableConfigAdmitsMissingCookie | CompanyName.ProjectName/PixelMEDIA.PixelWeb/Components/PixelController.cs:166-175 | an unparseable configured GUID equals the Guid.Empty of a missing cookie, so the request passes |
| PixelControllerModel.PixelController.StateOfList | CompanyName.ProjectName/PixelMEDIA.PixelWeb/Components/PixelController.cs:87-96 | a bucket holds a list exactly when its dictionary registers one |
| PixelControllerModel.PixelController.constructor | CompanyName.ProjectName/PixelMEDIA.PixelWeb/Components/PixelController.cs:98-148 | empty dictionaries and no cached lists |
| PixelControllerModel.PixelController.GetMessageCollection | CompanyName.ProjectName/PixelMEDIA.PixelWeb/Components/PixelController.cs:87-96 | a present key gives its entry as a list (null for a non-list) and nothing changes; a missing key gets a new empty list |
| PixelControllerModel.PixelController.Collection | CompanyName.ProjectName/PixelMEDIA.PixelWeb/Components/PixelController.cs:98-148 | the lazy property caches and returns the bucket's list, creating it only on first use, and no other bucket changes |
| PixelControllerModel.PixelController.Append | CompanyName.ProjectName/PixelMEDIA.PixelWeb/Components/PixelController.cs:260-264 | one message is appended to the bucket; NullReferenceException exactly for a non-list entry |
| PixelControllerModel.PixelController.AddIfNotBlank | CompanyName.ProjectName/PixelMEDIA.PixelWeb/Components/PixelController.cs:205-236 | a message that is not null or white space is appended; others change nothing |
| PixelControllerModel.PixelController.AddError | CompanyName.ProjectName/PixelMEDIA.PixelWeb/Components/PixelController.cs:205-208 | a non-blank message goes to CurrentErrors; ViewData, TempData, the response and the other buckets stay as they were |
| PixelControllerModel.PixelController.AddErrorException | CompanyName.ProjectName/PixelMEDIA.PixelWeb/Components/PixelController.cs:214 | the exception's message, if not blank, goes to CurrentErrors; ViewData, TempData, the response and the other buckets stay as they were |
| PixelControllerModel.PixelController.AddStatus | CompanyName.ProjectName/PixelMEDIA.PixelWeb/Components/PixelController.cs:221-243 | the status message, if not blank, goes to the bucket, and the result is the status's success; ViewData, TempData, the response and the other buckets stay as they were |
| PixelControllerModel.PixelController.AddAll | CompanyName.ProjectName/PixelMEDIA.PixelWeb/Components/PixelController.cs:227-249 | the non-blank messages go to the bucket in order; ViewData, TempData, the response and the other buckets stay as they were |
| PixelControllerModel.PixelController.AddRedirectMessageOrError | CompanyName.ProjectName/PixelMEDIA.PixelWeb/Components/PixelController.cs:256-267 | the message, even a blank one, goes to RedirectMessages on success and to RedirectErrors on failure, and the result is the success; ViewData, TempData, the response and the other buckets stay as they were |
| PixelControllerModel.PixelController.Initialize | CompanyName.ProjectName/PixelMEDIA.PixelWeb/Components/PixelController.cs:154-199 | an allowed request initializes and changes nothing else; one allowed by its request value also gets the accessGuid cookie and nothing else of the response changes; a forbidden one gets 403 Forbidden, the text "403 Access Forbidden" and a closed response |
| PixelControllerModel.PixelController.JsonStatus | CompanyName.ProjectName/PixelMEDIA.PixelWeb/Components/PixelController.cs:325-332 | the payload is the status; only a failure sets the status code, which resets the status description to the code's standard text; no other part of the response changes |
| PixelControllerModel.PixelController.JsonStatusDefault | CompanyName.ProjectName/PixelMEDIA.PixelWeb/Components/PixelController.cs:339-342 | a failure answers 500 with the standard description; no other part of the response changes |
| PixelHelperModel.IndexOfKey | CompanyName.ProjectName/PixelMEDIA.PixelWeb/Components/PixelHelper.cs:261-262 | the entry whose key equals the key ignoring case, or none when no key does |
| PixelHelperModel.SetEntrySpec | CompanyName.ProjectName/PixelMEDIA.PixelWeb/Components/PixelHelper.cs:290-309 | after a set the keys stay distinct, the key reads back the value, other keys read as before, and an existing key keeps its place |
| PixelHelperModel.LookupByIndex | CompanyName.ProjectName/PixelMEDIA.PixelWeb/Components/PixelHelper.cs:261-262 | with distinct keys, the entry at a matching index is the one a lookup finds |
| PixelHelperModel.RouteValueDictionary.Get | CompanyName.ProjectName/PixelMEDIA.PixelWeb/Components/PixelHelper.cs:261-262 | a missing key reads as null |
| PixelHelperModel.RouteValueDictionary.Set | CompanyName.ProjectName/PixelMEDIA.PixelWeb/Components/PixelHelper.cs:290-309 | the entries become those of the set |
| PixelHelperModel.Flip | CompanyName.ProjectName/PixelMEDIA.PixelWeb/Components/PixelHelper.cs:294-305 | the other direction |
| PixelHelperModel.SortLink | CompanyName.ProjectName/PixelMEDIA.PixelWeb/Components/PixelHelper.cs:285-313 | the route values sort on this column, flipping the direction of the current column and ascending otherwise; the current column's link gets the "sort-asc" or "sort-desc" class |
| PixelHelperModel.SortLinkReads | CompanyName.ProjectName/PixelMEDIA.PixelWeb/Components/PixelHelper.cs:285-313 | the link sorts on this column in the flipped or ascending direction, and every other route value is kept |
| PixelHelperModel.FlipTwice | CompanyName.ProjectName/PixelMEDIA.PixelWeb/Components/PixelHelper.cs:294-305 | following the current column's link twice sorts as before |
| PixelHelperModel.PixelHelper.constructor | CompanyName.ProjectName/PixelMEDIA.PixelWeb/Components/PixelHelper.cs:57 | the helper over the route data and the controller |
| PixelHelperModel.PixelHelper.AreaName | CompanyName.ProjectName/PixelMEDIA.PixelWeb/Components/PixelHelper.cs:197-204 | "" when there is no area, the string itself for a string area |
| PixelHelperModel.PixelHelper.IsCurrentPageSpec | CompanyName.ProjectName/PixelMEDIA.PixelWeb/Components/PixelHelper.cs:322-333 | the page's own names always name the current page; a null area matches any area; a null name never matches a non-null one |
| PixelHelperModel.PixelHelper.NavigationLink | CompanyName.ProjectName/PixelMEDIA.PixelWeb/Components/PixelHelper.cs:257-270 | the route values are passed as they are; on the current page the class attribute becomes the existing class, a space and selectedClass (by default "selected"), or selectedClass alone when there was no class |
| PixelHelperModel.PixelHelper.Combined | CompanyName.ProjectName/PixelMEDIA.PixelWeb/Components/PixelHelper.cs:62-67 | the current list followed by the redirect list; ArgumentNullException when either entry is not a list; no message changes |
| PixelHelperModel.PixelHelper.HasAny | CompanyName.ProjectName/PixelMEDIA.PixelWeb/Components/PixelHelper.cs:72-77 | true exactly when the two lists hold something between them; NullReferenceException when either entry is not a list |
| PixelHelperModel.RenderedFails | CompanyName.ProjectName/PixelMEDIA.PixelWeb/Components/PixelHelper.cs:423-434 | rendering fails exactly when some attribute value is null, with NullReferenceException; a non-empty dictionary never renders as "" |
| PixelHelperModel.RenderedSingle | CompanyName.ProjectName/PixelMEDIA.PixelWeb/Components/PixelHelper.cs:421-434 | a single attribute renders as ` key="encoded value"` |
| PixelHelperModel.GetAttributesString | CompanyName.ProjectName/PixelMEDIA.PixelWeb/Components/PixelHelper.cs:423-434 | the StringBuilder loop renders every attribute in order, or fails at a null value |
| PixelHelperModel.RenderedFailsOnward | CompanyName.ProjectName/PixelMEDIA.PixelWeb/Components/PixelHelper.cs:423-434 | a null value anywhere fails the whole rendering |
| PixelHelperModel.Attrs | CompanyName.ProjectName/PixelMEDIA.PixelWeb/Components/PixelHelper.cs:351-355 | the dictionary's attributes rendered in order |
| PixelHelperModel.AttrsIf | CompanyName.ProjectName/PixelMEDIA.PixelWeb/Components/PixelHelper.cs:363-366 | the attributes when the condition holds, otherwise a single space |
| PixelHelperModel.AttrsIfElse | CompanyName.ProjectName/PixelMEDIA.PixelWeb/Components/PixelHelper.cs:375-378 | the attributes of the chosen dictionary |
| PixelHelperModel.ClassIf | CompanyName.ProjectName/PixelMEDIA.PixelWeb/Components/PixelHelper.cs:416-419 | ` class="..."` when the condition holds, a space otherwise; a null class name fails |
| PixelHelperModel.FlagAttrIf | CompanyName.ProjectName/PixelMEDIA.PixelWeb/Components/PixelHelper.cs:385-408 | ` name="name"` for disabled, checked or selected when the condition holds, a space otherwise |
| PixelHelperModel.StringIf | CompanyName.ProjectName/PixelMEDIA.PixelWeb/Components/PixelHelper.cs:443-446 | the text when the condition holds, the other text otherwise |
| PixelHelperModel.StringIfOrEmpty | CompanyName.ProjectName/PixelMEDIA.PixelWeb/Components/PixelHelper.cs:454-457 | the text or "" |

## Left out

- **Framework code.** Null checks inside the framework are modelled only where the source depends on them. Elsewhere a null argument of a core method is not modelled:
  - the dictionary of `MakeJsonDict` and `FromDict`;
  - the collections of `TakePage`, `CollectionContains` and `GetCsv`;
  - the list of `GetNthRoundRobinItem`;
  - the exceptions and Status objects passed to the controller;
  - the `fieldNames` array;
  - the string of `GetLabelFromPascalCase`, for which `Regex.Replace` throws ArgumentNullException;
  - a null cache key in `ExeCacheProvider`, for which `Dictionary` throws ArgumentNullException;
  - a null exception passed to `Logger.Log`;
  - a null collection for the PagedSortedList constructor, for which `new List<T>(null)` throws ArgumentNullException;
  - a null `strings` array for `SafeConvertGuidArray`, for which the LINQ query throws ArgumentNullException.
- **Status.Message.** The message is a non-null string. The source allows a null message; `AddRedirectMessageOrError` would then add a null entry, and `AddError(status)` would add nothing.
- **Route values from anonymous objects.** `RouteValueDictionary` throws ArgumentException when two property names differ only in case. The model's `requires KeysDistinct` rules that case out for `SortLink`, `NavigationLink` and `Attrs`.
- **ListSortDirection.** Only its two named values are modelled. For any other value, `SortLink`'s switch sets neither sortDir nor the class.
- **Characters.** `Left`, `Ellipsize` and the other string operations count Dafny characters, where .NET counts UTF-16 code units; the two differ only for characters outside the Basic Multilingual Plane.
- **Framework functions.** The functions passed in as parameters (parsers, `ToString`, `Equals`, `String.Format`, the HTML encoder, `Convert.ChangeType`, culture case folding) are not modelled. A contract that mentions one holds for every function given in its place.
- **CollectionHelper.OrderBy.** Left out: it only chooses between LINQ's `OrderBy` and `OrderByDescending` on an expression tree, which is framework code.
- **InclusiveRangeList, InclusiveRangeListTo, InclusiveRangeArray, InclusiveRangeArrayTo.** These require `last < int.MaxValue`, because for `last == int.MaxValue` the source's `i <= last` loop never terminates.
- **ConversionHelper.** Left out:
  - SafeConvertDecimal: `decimal` arithmetic and culture-dependent parsing;
  - SafeConvertDate: `DateTime.TryParse` is culture-dependent;
  - GetEnumTextValueFromInt, GetEnumFromInt, GetLabelFromEnum and GetEnumTextValueFromEnum: enum reflection.
- **DateHelper.** Left out:
  - DateToString, GetShortDate and GetDateFormatted: culture-dependent formatting;
  - GetYesterday, GetTomorrow and the parameterless overloads of FirstDayOfYear, LastDayOfYear, EndOfMonth and StartOfMonth: they read the clock.
- **GetDaysDifference.** Left out: it rounds a floating-point `TotalDays`.
  - `GetDaysInRangeInclusive` therefore takes the day count it computes as an input.
- **DateTime.** Modelled to the second; ticks and `DateTimeKind` are not modelled.
- **GetMonthName.** Left out: it reads the culture's month names.
- **StringHelper.ExtractBetween.** Modelled for literal start and end markers: the regular expression `start(.+?)end` over escaped markers, with `.` matching anything but `'\n'`. The general regex engine is not modelled.
- **String.Trim.** Uses a fixed white-space set: the Unicode `White_Space` characters of `Char.IsWhiteSpace`.
- **StringHelper.GetWordCount.** Returns an unbounded `nat` where the source returns an `int`; a string cannot hold 2^31 words.
- **ReflectionHelper.** Left out:
  - HasAttribute: custom attributes are not part of the record model of types;
  - GetProperty and Transmute: `Activator.CreateInstance` and the `AmbiguousMatchException` of `Type.GetProperty` are left out.
  - Properties are identified by name: a type has at most one property of each name, as C# requires.
- **Logger.** The following are records and parameters:
  - log4net: the level configuration and the list of written entries;
  - `StackTrace`: a sequence of frames;
  - the client property provider: three strings, where a null string formats as "".
  - Line ends are the Windows `"\r\n"`.
- **RandomHelper.** `System.Random` is a generator function; its distribution is not modelled.
- **PixelController.** Left out, because they render views or are MVC plumbing:
  - Error, OnException, RedirectWithStatus, RedirectToActionWithStatus and RedirectFormat;
  - Csv, Jsonp, JsonpText and JsonText;
  - RenderViewToString, MakeSelectListItem and IsDebugMode.
- **PixelController HTTP context.** `SettingsHelper.Get` and `HttpHelper.GetCookie`/`SetCookie` are parameters and a cookie map. `HttpHelper` and `SettingsHelper` are not part of this model.
- **PixelController.Valid.** Assumes that ViewData and TempData are changed only through the controller.
- **PixelHelper.** Left out, because they build MVC HTML:
  - BeginFormWithClassName, BeginFormWithClassNameAndHash and BeginAjaxForm;
  - GetValidationSummarySection, LabelFor and the PixelHtmlExtensions LabelFor overloads;
  - GetAbsoluteUrl and MvcHtmlStringConcat;
  - IsDebugMode, RouteValues and GetRouteValue;
  - `Html.ActionLink` itself.
  - `NavigationLink` and `SortLink` are modelled up to the dictionaries they pass to `ActionLink`.
- **PixelHelper route values.** `ActionName` and `ControllerName` are route strings, with the `(string)` cast assumed to succeed. The view's controller is assumed to be a `PixelController`.
- **RouteValueDictionary.** Built from a list of entries rather than from an anonymous object, and compared case-insensitively on ASCII letters only.
- **PixelHelper Messages and Errors.** The lazy `Concat` is evaluated at once.
- **PixelHelper.Ellipsize.** Not modelled separately: it only calls `StringHelper.Ellipsize`, which is modelled.
- **ExportHelper.GetCsv.** Its records are separated by `"\n"`. The decoder used in the round-trip lemma reads RFC 4180 (section 2) with `"\n"` as the record separator.
- **Rest of the repository.** The other projects and files are not part of this model: EntityHelper, MailHelper, SecurityHelper, SettingsHelper, SystemHelper, XmlHelper, the PixelWeb providers and HttpHelper, PixelDrawing, and the CompanyName.ProjectName application.

## Findings

| source | as written | input that shows it | evidently intended | confidence | as-written member | corrected member |
|---|---|---|---|---|---|---|
| CompanyName.ProjectName/PixelMEDIA.PixelCore/Helpers/DateHelper.cs:109-113 | `EndOfMonth` builds `new DateTime(d.Year, d.Month + 1, 1, 23, 59, 59)`, which has month 13 for December and throws `ArgumentOutOfRangeException` | any December date, e.g. 15 December 2024 | the last day of the month at 23:59:59, here 31 December 2024 23:59:59 | high; not executed | DateHelper.EndOfMonthDecemberFails | DateHelper.EndOfMonthIntendedIsLast |
