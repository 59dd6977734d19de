# VoiceAttack typed variables

A Dafny model of `VoiceAttackVariables`, the typed variable store of the
VoiceAttack plugin proxy. The store does three things:

- **Set.** `Set<T>(name, value)` classifies the value by its .NET `TypeCode`
  into one of six host variable kinds: SHORT, INT, DEC, TXT, BOOL or DATE.
  It turns the value's `ToString()` text into that kind's .NET type: it
  parses the text for the numeric, bool and date kinds, and only trims
  double quotes from it for TXT. It then
  records `("{TAG:name}", text)` at the front of the local list
  `_setVariables`, replacing any older entry under the same key. Finally it
  forwards the value to the host's typed setter.
- **Get.** `Get<T>(name)` sends the read to one typed host getter, chosen by
  the type code.
- **Clear.** `ClearStartingWith(prefix)` drops the entries whose key piece
  `Split(':')[1]` starts with the prefix. That piece runs from the first `:`
  to the second one, or to the end of the key. For a name without a colon it
  is therefore the name followed by the closing `}`; a colon inside the name
  cuts it short at that colon.

The model is split into these modules:

- `Text`: the .NET string operations used: `Trim('"')`, `Split(':')` and
  ordinal `StartsWith`, with `IndexOf` as a helper for `Split`.
- `Numbers`: `ToString` and `Parse` for `short`, `int`, `decimal` and `bool`.
  This covers ranges, overflow versus format errors, and a decimal that keeps
  its scale.
- `Kinds`: type codes, tags and tagged keys. It holds the `Set` switch as the
  function `Classify` and the `Get` switch as the function `GetRoute`.
- `RecencyCache`: the list `_setVariables` as a `seq` of pairs, with the
  move-to-front upsert and prefix clearing.
- `Variables`: the class `VoiceAttackVariables` itself. It has the mutable
  `setVariables` field, the `SetVariable` method built on a `FindIndex` loop,
  the six typed setters, `Set`, `Get` and `ClearStartingWith`.

The host proxy (`dynamic _proxy`) is known only through the calls made to it.
The model keeps these calls in a ghost log, `hostCalls`.

**Where the model differs from the prose.** The comment at line 200 of
`VoiceAttackVariables.cs` says the newest entries are at the bottom. The code
inserts at index 0, so the newest entry is at the top. The model follows the
code.

## Model

| member | source | states |
|---|---|---|
| Kinds.Tag | Proxy/Variables/VoiceAttackVariables.cs:152-192 | each kind's tag (SHORT, INT, DEC, TXT, BOOL, DATE) reads back as that kind and has no colon |
| Kinds.TaggedKey | Proxy/Variables/VoiceAttackVariables.cs:152-192 | the key a setter files a set under is `{`, the kind's tag, `:`, the name and `}`, each at its stated position |
| Kinds.ParseTaggedKeyOfTaggedKey | Proxy/Variables/VoiceAttackVariables.cs:152-192 | the key `{TAG:name}` built by a setter reads back as exactly its kind and its name |
| Kinds.TaggedKeyOfParse | Proxy/Variables/VoiceAttackVariables.cs:152-192 | every key that reads back as a kind and a name is the key built from them (the key format is a bijection) |
| Kinds.TaggedKeyInjective | Proxy/Variables/VoiceAttackVariables.cs:152-192 | two setters use the same key if and only if their kinds and names are equal, so the same name set as two kinds never collides |
| Kinds.TaggedKeyHasColon | Proxy/Variables/VoiceAttackVariables.cs:19 | every tagged key has a colon, so `Split(':')[1]` in `ClearStartingWith` never fails on a recorded key |
| Kinds.NameSegmentOfTaggedKey | Proxy/Variables/VoiceAttackVariables.cs:19 | the segment `ClearStartingWith` tests is the name plus the closing `}`, or, when the name has a colon, the name up to that colon |
| Kinds.Classify | Proxy/Variables/VoiceAttackVariables.cs:30-75 | the `Set` switch does nothing exactly for the codes it does not name (Empty, Object, DBNull); every value it writes has a kind allowed for its code and is in that type's range |
| Kinds.BooleanOutcome | Proxy/Variables/VoiceAttackVariables.cs:35-37 | the BOOL written is the value `bool.Parse` reads, whose `ToString` is the text; any other text raises FormatError |
| Kinds.DateOutcome | Proxy/Variables/VoiceAttackVariables.cs:39-41 | the DATE written is the moment `DateTime.Parse` (the culture's parse) reads from the text; a text it cannot read raises FormatError |
| Kinds.DecimalOutcome | Proxy/Variables/VoiceAttackVariables.cs:43-47 | the DEC written is the valid decimal `decimal.Parse` reads; when it fails, its own error (format or overflow) is raised |
| Kinds.ShortOutcome | Proxy/Variables/VoiceAttackVariables.cs:54-59 | the SHORT written is the value `short.Parse` reads, within the 16-bit range; any error of `short.Parse` is raised, with no handler |
| Kinds.TextOutcome | Proxy/Variables/VoiceAttackVariables.cs:49-52 | a char or string is always written as TXT, whose text neither starts nor ends with a double quote, and is the text itself when it had none at either end |
| Kinds.ToText | Proxy/Variables/VoiceAttackVariables.cs:36-71 | `value.ToString()`: an integer's and a bool's text read back through their parses as the value, text is itself, a date is the culture's text |
| Kinds.IntOutcome | Proxy/Variables/VoiceAttackVariables.cs:61-73 | a numeral within the 32-bit range is written as the INT `int.Parse` reads; a non-numeral raises FormatError, uncaught; only on overflow does `decimal.Parse` take over, writing the DEC it reads or raising its error |
| Kinds.Render | Proxy/Variables/VoiceAttackVariables.cs:150-196 | the text each setter records reads back as the value it was given: `short`, `int`, `decimal` and `bool` through their parses, text as itself |
| Kinds.Fits | Proxy/Variables/VoiceAttackVariables.cs:28 | a value matching its type code never has code Empty or DBNull, and an integer one lies within the 64-bit ranges |
| Kinds.ClassifyIntCode | Proxy/Variables/VoiceAttackVariables.cs:61-73 | a 32/64-bit integer is written as INT when it fits `int`, otherwise as DEC with the same value and scale 0; either way the cache text is its digits |
| Kinds.ClassifyShortCode | Proxy/Variables/VoiceAttackVariables.cs:54-59 | a byte/short/ushort/sbyte is written as SHORT when it fits `short`, otherwise `short.Parse` raises OverflowError and nothing falls back |
| Kinds.ClassifyEnumName | Proxy/Variables/VoiceAttackVariables.cs:54-73 | an integer-coded value whose text is not a numeral raises FormatError, which the INT fallback does not catch |
| Kinds.ClassifyText | Proxy/Variables/VoiceAttackVariables.cs:49-52 | char and string values are written as TXT with their surrounding double quotes trimmed |
| Kinds.ClassifyBoolean | Proxy/Variables/VoiceAttackVariables.cs:35-37 | a bool is written as BOOL with its own value (the `ToString`/`bool.Parse` round trip) |
| Kinds.ClassifyDecimal | Proxy/Variables/VoiceAttackVariables.cs:43-47 | a decimal's text is read back by `decimal.Parse` as the same value and scale, so it is written as DEC unchanged |
| Kinds.ClassifyDecimalText | Proxy/Variables/VoiceAttackVariables.cs:43-47 | under the float, double and decimal codes, a text `decimal.Parse` accepts is written as DEC with exactly the value it parses to, and any other text (`NaN`, an exponent) raises the parse's error, uncaught |
| Kinds.ClassifyDate | Proxy/Variables/VoiceAttackVariables.cs:39-41 | a DateTime is written as DATE with its own value when the culture reads back what it writes |
| Kinds.ClassifyDateText | Proxy/Variables/VoiceAttackVariables.cs:39-41 | for any culture, the DATE written is the moment the culture parses from its own trimmed text of the date (under .NET's default `G` pattern, which drops sub-second ticks and the `DateTimeKind`, a truncated moment, so for most real dates such as `DateTime.Now` not the date itself), and a text it cannot read back raises FormatError |
| Kinds.GetRoute | Proxy/Variables/VoiceAttackVariables.cs:82-117 | the `Get` switch calls no getter (and returns the default value) exactly for the codes it does not name; long and ulong read from DEC |
| Kinds.GetReadsWhatSetWrote | Proxy/Variables/VoiceAttackVariables.cs:30-117 | `Get` reads the kind `Set` wrote for the same code if and only if it is not a long/ulong written as INT, nor an int/uint that overflowed to DEC |
| Kinds.WideIntegerReadsDecimal | Proxy/Variables/VoiceAttackVariables.cs:61-99 | a long/ulong that fits `int` is written as INT but read from DEC |
| Kinds.LargeUInt32ReadsInt | Proxy/Variables/VoiceAttackVariables.cs:61-113 | a uint above `int.MaxValue` is written as DEC but read from INT |
| Numbers.IntToString | Proxy/Variables/VoiceAttackVariables.cs:153 | an integer's text is never empty and starts with `-` exactly when the integer is negative |
| Numbers.ParseIntegerOfIntToString | Proxy/Variables/VoiceAttackVariables.cs:58 | parsing an integer's text gives the integer back |
| Numbers.ParseInt16 | Proxy/Variables/VoiceAttackVariables.cs:58 | `short.Parse` succeeds with the numeral's value inside the 16-bit range, raises FormatError exactly for a text outside the `[-]digits` grammar and OverflowError exactly for a numeral outside the range |
| Numbers.ParseInt32 | Proxy/Variables/VoiceAttackVariables.cs:67-69 | `int.Parse` succeeds with the numeral's value inside the 32-bit range, raises FormatError exactly for a text outside the `[-]digits` grammar and OverflowError exactly for a numeral outside the range |
| Numbers.ParseInt16OfIntToString | Proxy/Variables/VoiceAttackVariables.cs:58 | `short.Parse` of an integer's text gives the integer back when it fits `short` and raises OverflowError otherwise |
| Numbers.ParseInt32OfIntToString | Proxy/Variables/VoiceAttackVariables.cs:67-69 | `int.Parse` of an integer's text gives the integer back when it fits `int` and raises OverflowError otherwise |
| Numbers.ParseDecimalOfIntToString | Proxy/Variables/VoiceAttackVariables.cs:71 | `decimal.Parse` of a 64-bit integer's text gives that integer as a decimal of scale 0 |
| Numbers.ParseFormatDecimal | Proxy/Variables/VoiceAttackVariables.cs:46 | `decimal.Parse` of a decimal's `ToString` text gives back the same decimal, scale included |
| Numbers.ParseDecimal | Proxy/Variables/VoiceAttackVariables.cs:46 | a successful `decimal.Parse` gives a valid decimal: at most 96 bits of units and a scale of at most 28 |
| Numbers.FormatDecimal | Proxy/Variables/VoiceAttackVariables.cs:177 | a decimal of scale 0 is written as its integer's text (the point form is covered by `ParseFormatDecimal`) |
| Numbers.ParseBool | Proxy/Variables/VoiceAttackVariables.cs:36 | `bool.Parse` accepts exactly the two texts `bool.ToString` writes, `True` and `False`, each as its own value |
| Numbers.BoolToString | Proxy/Variables/VoiceAttackVariables.cs:36 | `bool.Parse` reads back the text `bool.ToString` writes |
| Numbers.DigitsValueOfNatToString | Proxy/Variables/VoiceAttackVariables.cs:153 | the digits `ToString` writes for a number denote that number |
| Text.TrimQuotes | Proxy/Variables/VoiceAttackVariables.cs:39-52 | the trimmed text neither starts nor ends with a double quote |
| Text.TrimQuotesSlice | Proxy/Variables/VoiceAttackVariables.cs:39-52 | `Trim('"')` keeps a slice of the text, and only double quotes are cut from either end |
| Text.TrimQuotesUnquoted | Proxy/Variables/VoiceAttackVariables.cs:40-51 | `Trim('"')` leaves a text with no double quote at either end as it is |
| Text.TrimQuotesIdempotent | Proxy/Variables/VoiceAttackVariables.cs:39-52 | trimming a trimmed text changes nothing |
| Text.Split | Proxy/Variables/VoiceAttackVariables.cs:19 | `Split` gives at least one piece, no piece holds the separator, and joining the pieces gives the text back |
| Text.SplitHasSecondPiece | Proxy/Variables/VoiceAttackVariables.cs:19 | `Split(':')[1]` exists if and only if the key has a colon |
| Text.SecondPiece | Proxy/Variables/VoiceAttackVariables.cs:19 | the second piece runs from after the first colon to the next colon, or to the end |
| Text.StartsWith | Proxy/Variables/VoiceAttackVariables.cs:19 | ordinal `StartsWith`: the prefix is no longer than the text and agrees with it character by character |
| Text.PrefixOfFirstPiece | Proxy/Variables/VoiceAttackVariables.cs:19 | a prefix of the piece up to the next separator is exactly a prefix of the rest that holds no separator |
| RecencyCache.Lookup | Proxy/Variables/VoiceAttackVariables.cs:7 | a key has an entry in the cache if and only if it is one of the cache's keys |
| RecencyCache.RemoveKey | Proxy/Variables/VoiceAttackVariables.cs:201-205 | removing a key leaves no entry under it and keeps every other entry; a missing key changes nothing |
| RecencyCache.RemoveKeyIsSubsequence | Proxy/Variables/VoiceAttackVariables.cs:204 | removal keeps the remaining entries in their old order |
| RecencyCache.RemoveAt | Proxy/Variables/VoiceAttackVariables.cs:204 | `List.RemoveAt(index)` keeps the entries before the index in place and moves each later one down by one |
| RecencyCache.RemoveAtIsRemoveKey | Proxy/Variables/VoiceAttackVariables.cs:201-205 | with unique keys, `RemoveAt` at the index `FindIndex` found is the same as removing that key |
| RecencyCache.Upsert | Proxy/Variables/VoiceAttackVariables.cs:198-208 | after `SetVariable` the new entry is first, its key appears nowhere behind it, and looking the key up gives the new text |
| RecencyCache.UpsertKeepsKeysUnique | Proxy/Variables/VoiceAttackVariables.cs:198-208 | recording a set keeps one entry per key |
| RecencyCache.UpsertFront | Proxy/Variables/VoiceAttackVariables.cs:207 | the new entry is at index 0; behind it are exactly the old entries under other keys, in their old order |
| RecencyCache.UpsertLength | Proxy/Variables/VoiceAttackVariables.cs:198-208 | the cache grows by one if and only if the key is new |
| RecencyCache.RemoveKeyLength | Proxy/Variables/VoiceAttackVariables.cs:204 | with unique keys, removal shortens the cache by one exactly when the key was present |
| RecencyCache.LookupRemoveKey | Proxy/Variables/VoiceAttackVariables.cs:204 | removing one key leaves the entry of every other key as it was |
| RecencyCache.LookupUpsert | Proxy/Variables/VoiceAttackVariables.cs:198-208 | after a set, its key gives the new text and every other key gives what it gave before |
| RecencyCache.UpsertTwice | Proxy/Variables/VoiceAttackVariables.cs:198-208 | setting one key twice leaves a single entry, at the front, with the later text |
| RecencyCache.SubsequenceUnique | Proxy/Variables/VoiceAttackVariables.cs:19 | dropping entries from a cache with unique keys keeps the keys unique |
| RecencyCache.SegmentStartsWith | Proxy/Variables/VoiceAttackVariables.cs:19 | the `Where` test `Split(':')[1].StartsWith(prefix)` holds exactly when the text after the first colon starts with the prefix and the prefix has no colon |
| RecencyCache.Cleared | Proxy/Variables/VoiceAttackVariables.cs:19 | clearing keeps no entry whose segment starts with the prefix, keeps every entry whose segment does not, and keeps their order |
| RecencyCache.ClearedKeepsKeysUnique | Proxy/Variables/VoiceAttackVariables.cs:19 | clearing keeps one entry per key |
| RecencyCache.ClearedEmptyPrefix | Proxy/Variables/VoiceAttackVariables.cs:19 | clearing with the empty prefix empties the cache |
| RecencyCache.ClearedIdempotent | Proxy/Variables/VoiceAttackVariables.cs:19 | clearing twice with the same prefix is the same as clearing once |
| RecencyCache.SegmentOfPlainName | Proxy/Variables/VoiceAttackVariables.cs:17-20 | a name without a colon is cleared if and only if it starts with the prefix or the prefix is the whole name plus `}` |
| RecencyCache.SegmentOfColonName | Proxy/Variables/VoiceAttackVariables.cs:17-20 | a name with a colon is cleared if and only if its part before the colon starts with the prefix |
| Variables.UpsertKeepsInvariant | Proxy/Variables/VoiceAttackVariables.cs:150-208 | every setter keeps the cache at one entry per key, with every key a tagged key |
| Variables.ClearedKeepsInvariant | Proxy/Variables/VoiceAttackVariables.cs:17-20 | `ClearStartingWith` keeps the same invariant |
| Variables.NoCollisionAcrossKinds | Proxy/Variables/VoiceAttackVariables.cs:150-208 | one name set as two different kinds keeps two entries, each with its own text |
| Variables.FindIndex | Proxy/Variables/VoiceAttackVariables.cs:201 | `FindIndex` returns the first index whose key matches, or -1 exactly when no key matches |
| Variables.VoiceAttackVariables.constructor | Proxy/Variables/VoiceAttackVariables.cs:11-15 | a new store has an empty cache and has made no host calls |
| Variables.VoiceAttackVariables.SetVariables | Proxy/Variables/VoiceAttackVariables.cs:9 | the read-only view has one entry per key, and every key is a tagged key |
| Variables.VoiceAttackVariables.SetVariable | Proxy/Variables/VoiceAttackVariables.cs:198-208 | find, remove, insert at 0: the new cache is the upsert of the old one |
| Variables.VoiceAttackVariables.Set | Proxy/Variables/VoiceAttackVariables.cs:28-75 | a value `Classify` writes gives one upsert under its tagged key and one host setter call; an exception or an unnamed code leaves the cache and the host untouched |
| Variables.VoiceAttackVariables.Forward | Proxy/Variables/VoiceAttackVariables.cs:36-71 | the branch's call to the setter of the value's kind |
| Variables.VoiceAttackVariables.Get | Proxy/Variables/VoiceAttackVariables.cs:82-148 | exactly the getter `GetRoute` names is called (none for an unnamed code); the cache is untouched |
| Variables.VoiceAttackVariables.ClearStartingWith | Proxy/Variables/VoiceAttackVariables.cs:17-20 | the cache becomes the cleared cache; the host is not called |
| Variables.VoiceAttackVariables.SetShort | Proxy/Variables/VoiceAttackVariables.cs:150-156 | upsert of `{SHORT:name}` with the number's text, then one `SetSmallInt` call |
| Variables.VoiceAttackVariables.SetInt | Proxy/Variables/VoiceAttackVariables.cs:158-164 | upsert of `{INT:name}` with the number's text, then one `SetInt` call |
| Variables.VoiceAttackVariables.SetText | Proxy/Variables/VoiceAttackVariables.cs:166-172 | upsert of `{TXT:name}` with the text, then one `SetText` call |
| Variables.VoiceAttackVariables.SetDecimal | Proxy/Variables/VoiceAttackVariables.cs:174-180 | upsert of `{DEC:name}` with the decimal's text, then one `SetDecimal` call |
| Variables.VoiceAttackVariables.SetBoolean | Proxy/Variables/VoiceAttackVariables.cs:182-188 | upsert of `{BOOL:name}` with `True` or `False`, then one `SetBoolean` call |
| Variables.VoiceAttackVariables.SetDate | Proxy/Variables/VoiceAttackVariables.cs:190-196 | upsert of `{DATE:name}` with the culture's text of the date, then one `SetDate` call |

## Left out

- `VoiceAttackPlugin.cs`, the plugin entry points and the wiring of the proxy, is not part of this model.
- Host behaviour. What the host stores or returns for a variable is not modelled. Host calls are only logged, and a host call that throws is not modelled.
- Variables.VoiceAttackVariables.Get: the value the getter returns and its `Convert.ChangeType` to `T` are not modelled, because both belong to the host and to .NET. The method returns which getter was called, not the value.
- Culture. `DateTime.ToString` and `DateTime.Parse` are a `Culture` parameter, not a fixed format. Integer and decimal text uses the invariant culture: a `-` sign, a `.` point, and no group separators.
- Numbers.ParseDecimal: this is the invariant-culture grammar `[-]digits[.digits]` only. Whitespace, `+`, thousands separators and exponents are not accepted. More than 28 fraction digits are taken as a FormatError rather than rounded. A coefficient beyond 96 bits is an OverflowError, while .NET rounds away excess fraction digits when the integer part fits: `9.9999999999999999999999999999` (28 fraction digits) parses to `10.000000000000000000000000000` in .NET but overflows here. `Set` never parses such text, because `float`/`double` text carries at most 17 significant digits and a decimal's own text always fits.
- Numbers.FormatDecimal: negative zero is not distinguished from zero.
- Kinds.ToText: `float` and `double` values enter as their `ToString` text, so binary floating point is not modelled.
- Numbers.ParseBool: `bool.Parse` is modelled as accepting exactly `True` and `False`. .NET ignores case and surrounding whitespace (`bool.Parse(" true ")` is true); this is not modelled, since `bool.ToString` never produces such text and `Set` parses nothing else.
- Numbers.ParseInt16: `short.Parse` uses NumberStyles.Integer, which also accepts leading and trailing whitespace and a leading `+`; the model takes only `[-]digits` and raises FormatError on such text. `Set` never parses it, because integer and enum `ToString` never write it.
- Numbers.ParseInt32: `int.Parse` (NumberStyles.Integer) likewise accepts surrounding whitespace and a leading `+` (`int.Parse(" +5 ")` is 5); the model takes only `[-]digits`, for the same reason.
- Text.StartsWith: this is the ordinal comparison. .NET's `StartsWith(string)` is culture-sensitive, so ignorable characters and culture-specific collation are not modelled.
- Reflection. `Type.GetTypeCode(typeof(T))` is an explicit `TypeCode` argument. Enums are `OtherInput` values carrying their names, under their underlying integer code. The precondition `Fits` says only that the value matches its type code. The `where T : struct` constraint itself is not modelled, so `Fits` admits a string with code String, and the String branch of `Set` is modelled even though `Set<T>` cannot reach it.
- Variables.VoiceAttackVariables.SetVariables: the model returns a snapshot of the list. The source returns `AsReadOnly()`, a live wrapper around the list object. A caller holding it sees later sets, because `SetVariable` edits that list in place. After `ClearStartingWith` assigns a new list, the held wrapper keeps showing the old entries, cleared ones included, and never sees later sets. This aliasing is not modelled.
- Variables.VoiceAttackVariables.ClearStartingWith: a null prefix is not modelled, because `string` here cannot be null. The source throws ArgumentNullException from `StartsWith(null)` whenever the list is non-empty.
- Inputs a Dafny `string` cannot hold. A null `name` is not modelled: `Set<T>(null, v)` files its entry under `{TAG:}` and passes null to the host setter. Text is a sequence of Unicode scalars, not of UTF-16 code units, so a lone surrogate such as `Set<char>(n, '\uD800')` cannot be represented; on well-formed text `Split(':')`, `Trim('"')` and ordinal `StartsWith` give the same results either way.
- Nullable setter arguments (`short?`, `int?` and so on) are always non-null in the model, because `Set` passes only parsed values. `value ?? ""` in `SetText` therefore never takes its right side.
- Fixed-width integers are unbounded integers plus range predicates (`InInt16`, `InInt32`, the code ranges in `IntegerFits`). No wrap-around occurs, because the parses raise instead.
