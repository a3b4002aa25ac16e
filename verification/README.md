# Nexudus API client: date codec, admin paging and installation handshake

A Dafny model of the three pieces of logic inside the Nexudus API client
for Node.js that are more than HTTP plumbing:

- **Date codec** (`src/utils.ts`). `formatDate` renders a time value as the
  UTC text `YYYY-MM-DDTHH:MM:SSZ`, using the proleptic-Gregorian arithmetic
  of ECMA-262 section 21.4.1. `parseDateString` reads such a text back.
  The modules are `Calendar`, `JsText` and `DateCodec`.
- **Admin client** (`src/admin/api-client.ts`), in module `AdminClient`:
  - `getList` pages through a list endpoint;
  - `save` creates or updates a record and extracts the new `Id`;
  - `handleError` normalises the vendor's error shapes.

  The HTTP transport is a function parameter. JavaScript values, their
  truthiness and property access are in `JsValues`.
- **Installation handshake** (`src/admin/application.ts`), in module
  `Installation`:
  - `validate` checks the signed parameters of an installation request;
  - `createAuthToken` derives the Base64 credentials token.

  MD5 is a function parameter. UTF-8 (RFC 3629) is in `Utf8` and Base64
  (section 4 of RFC 4648) is in `Base64`.

Each operation is paired with an independent statement about it:
- the date codec with parse/format round trips and a field-by-field
  reading of the text;
- the pager with a reference concatenation of the pages;
- `handleError` with its idempotence;
- the validator with permutation and case invariance;
- the token with its decoding.

## Model

| member | source | states |
|---|---|---|
| DateCodec.DateValue | src/utils.ts:11 | An argument that is a number, 0 included, is used as the time value, and `undefined` or NaN falls back to `now`. The value must lie within ±8.64e15 ms (TimeClip), or the date is invalid. Infinities are always invalid. |
| DateCodec.FormatDateEpoch | src/utils.ts:11-19 | A timestamp of exactly 0 is honoured: it renders as `1970-01-01T00:00:00Z`. |
| DateCodec.FormatDateDefaultsToNow | src/utils.ts:11 | An absent or NaN timestamp renders as the current time `now` would. |
| DateCodec.FormatDateInvalid | src/utils.ts:11-19 | An infinite timestamp, a number outside ±8.64e15 ms, or a missing or NaN timestamp when `now` is outside that range gives an Invalid Date. It renders as `NaN-NaN-NaNTNaN:NaN:NaNZ`. |
| DateCodec.FormatDateFields | src/utils.ts:12-19 | The output is the year's decimal text, then `-`, month, `-`, day, `T`, hour, `:`, minute, `:`, second, `Z`. Each field below the year is exactly two digits denoting the UTC field. The fields are a valid calendar date and clock time, and they denote the time value rounded down to whole seconds. |
| DateCodec.FormatDateIgnoresMilliseconds | src/utils.ts:11-19 | Milliseconds are discarded: t and t − t mod 1000 render identically, for every valid t, negative ones included. |
| DateCodec.FormatDateShape | src/utils.ts:12-19 | The output has the fixed 20-character stamp shape exactly when the UTC year has four digits. |
| DateCodec.FormatDateLength | src/utils.ts:12-19 | The output has 20 characters exactly when the year is in 1000..9999 or in −999..−100, because the year is not padded. |
| DateCodec.YearTextFourDigits | src/utils.ts:19 | The year's text has four characters exactly for years 1000..9999 and −999..−100. Only the former start with a digit. |
| DateCodec.NormalizedText | src/utils.ts:29-30 | Replacing the first `T` with a space and dropping the first `Z` before appending ` UTC` changes the length by the right amount. It keeps the first character when that is neither `T` nor `Z`. Text without `T` or `Z` is only suffixed. |
| DateCodec.NormalizeStamp | src/utils.ts:29-30 | On a stamp, normalising gives the date, a space, the clock and ` UTC`. |
| DateCodec.NormalizeStampFields | src/utils.ts:29-30 | A normalised stamp has the shape that is read as UTC and carries the same fields. |
| DateCodec.ParseStamp | src/utils.ts:28-30 | A stamp whose fields form a valid date parses to the time value of those fields. |
| DateCodec.ReadUtcTextCarriesDay | src/utils.ts:28-30 | The Date built from the text does not check the day against the month. 2023-02-31 is the same time value as 2023-03-03. |
| DateCodec.ParseFormatRoundTrip | src/utils.ts:10-30 | Under the modelled strict reader (see `DateCodec.ParseStamp` under Left out), parsing the formatted text succeeds exactly for four-digit years. It then gives back t rounded down to whole seconds. |
| DateCodec.FormatParseRoundTrip | src/utils.ts:10-30 | A canonical stamp (valid date, four-digit year not starting with 0) parses. Formatting the parsed value gives back the same text. |
| DateCodec.RenderFieldsUnreadable | src/utils.ts:12-30 | The modelled strict reader (see `DateCodec.ParseStamp` under Left out) rejects the rendered fields of a year outside 1000..9999. An engine's own parser may read some of them, for example a three-digit year. |
| DateCodec.RenderFieldsOfStamp | src/utils.ts:12-30 | A canonical stamp is exactly the rendering of the fields read from it. |
| DateCodec.StampDetermined | src/utils.ts:28-30 | Two stamps that carry the same fields are the same text. |
| Calendar.UtcFields | src/utils.ts:12-17 | The UTC getters give a valid date and clock time whose time value is t rounded down to whole seconds. |
| Calendar.UtcFieldsOfTime | src/utils.ts:12-17 | Decomposing the time value of valid fields gives back those fields. |
| Calendar.UtcFieldsIgnoreMilliseconds | src/utils.ts:12-17 | The UTC fields do not depend on the milliseconds. |
| Calendar.DayFromYearStep | src/utils.ts:12 | The closed-form first day of each year agrees with the leap-year rule: consecutive years start 365 or 366 days apart. |
| Calendar.YearFromDay | src/utils.ts:12 | The year of a day number is the year whose first day is at most the day and whose successor's first day is after it. |
| Calendar.YearFromDayUnique | src/utils.ts:12 | Only one year satisfies that bracket. |
| Calendar.DaysInMonth | src/utils.ts:14 | Months have 28 to 31 days: 30 for April, June, September and November, 29 or 28 for February by the leap-year rule, 31 otherwise. |
| Calendar.DateFromDay | src/utils.ts:12-14 | Splitting a day number gives a valid date whose day number is that day. |
| Calendar.DateFromDayOfDate | src/utils.ts:12-14 | Splitting the day number of a valid date gives the date back. |
| Calendar.MakeDayInjective | src/utils.ts:12-14 | Distinct valid dates have distinct day numbers. |
| Calendar.ClockOfTime | src/utils.ts:15-17 | Hours, minutes and seconds below 24, 60 and 60 are recovered from a time value. |
| Calendar.ClockArithmetic | src/utils.ts:15-17 | The day, hour, minute and second parts of any time value add up to it rounded down to whole seconds. |
| JsText.IntToString | src/utils.ts:19 | The template literal of an integer has a leading `-` exactly for negatives. The digits after it denote the absolute value, with no superfluous leading zero. |
| JsText.NatToString | src/utils.ts:13-17 | The decimal text of a natural number is digits denoting it, with no leading zero. |
| JsText.PadStart | src/utils.ts:13-17 | Padding keeps the text as a suffix and fills the front up to the width with the pad character. |
| JsText.Pad2Digits | src/utils.ts:13-17 | A padded number below 100 is exactly two digits denoting it. |
| JsText.Pad2OfDigits | src/utils.ts:13-17 | Any two digits are the padded text of the number they denote. |
| JsText.ReplaceFirst | src/utils.ts:29 | `replace` with a one-character pattern leaves text without that character alone. Otherwise it replaces one occurrence, and the length changes accordingly. |
| JsText.ReplaceFirstAt | src/utils.ts:29 | The occurrence replaced is the first one. |
| JsText.ReplaceFirstKeeps | src/utils.ts:29 | Any other character the replacement does not introduce is present afterwards exactly when it was before. |
| AdminClient.HandleError | src/admin/api-client.ts:247-254 | handleError never resolves. An error with an own `Message` rejects as `{message: Message}`. Any other error is rejected unchanged. `null`, `undefined`, or an object whose own data shadows `hasOwnProperty` rejects with the TypeError the property test throws. |
| AdminClient.HandleErrorIdempotent | src/admin/api-client.ts:247-254 | Feeding a rejection reason of handleError back into handleError gives the same rejection. |
| AdminClient.FilterKey | src/admin/api-client.ts:154 | The filter key is `from_`, then the module name, then `_UpdatedOn`. |
| AdminClient.FetchPages | src/admin/api-client.ts:155-176 | The k-th request is for page k, with size 1000 and the filter. Requests stop right after the first page that fails or reports no next page. On a failure the result is handleError of it, and nothing collected is returned. Otherwise the result is every page's records, concatenated in page order. |
| AdminClient.GetList | src/admin/api-client.ts:149-177 | As FetchPages, with the filter value `formatDate(updatedAfter)`. |
| AdminClient.Collected | src/admin/api-client.ts:164-166 | No requests collect no records. Otherwise there are at least as many records as the last page holds. |
| AdminClient.CollectedEnds | src/admin/api-client.ts:164-166 | The collected records begin with the records of the first page and end with the records of the last page. |
| AdminClient.CollectedPages | src/admin/api-client.ts:156-166 | No record is dropped or duplicated: the result is the earlier pages, then exactly the records of page i + 1, then the later pages. |
| AdminClient.CollectedAppend | src/admin/api-client.ts:156-166 | Collecting over two runs of requests is collecting over each in turn. |
| AdminClient.CollectedLength | src/admin/api-client.ts:164-166 | The number of records returned is the sum of the page sizes. |
| AdminClient.SaveRequestFor | src/admin/api-client.ts:221-223 | save sends the data to the endpoint URL. It uses PUT exactly when `data.Id` is truthy. For `null` or `undefined` data nothing is sent. |
| AdminClient.SaveVerbChoice | src/admin/api-client.ts:223 | For an object, a missing or falsy `Id` (0, "", null, NaN, false) gives POST. Any other `Id` gives PUT. |
| AdminClient.SaveOutcome | src/admin/api-client.ts:229-237 | A falsy `WasSuccessful` rejects with handleError of the whole body. A truthy one with an object `Value` holding `Id` resolves to `Value.Id`. Resolving implies `WasSuccessful` was truthy. A `null` or `undefined` body, or a truthy `WasSuccessful` with a `null` or `undefined` `Value`, rejects with the TypeError the read throws, as the catch passes it through handleError. A `Value` that is an object without `Id`, or any other non-object, resolves to `undefined`. |
| AdminClient.Save | src/admin/api-client.ts:220-241 | `null` or `undefined` data rejects with a TypeError. A transport failure rejects with handleError of it. A received body is judged as SaveOutcome says. save resolves only after a request was sent and answered. |
| AdminClient.SaveRejectionNormalised | src/admin/api-client.ts:228-237 | Every rejection of save is in the shape handleError produces. |
| JsValues.Get | src/admin/api-client.ts:223 | Reading a property throws exactly on `null` and `undefined`, with a TypeError. An object, modelled without a prototype, yields its own property, or `undefined` when the property is missing. An array yields its length and the element at an index. A string yields its length in UTF-16 code units. |
| JsValues.HasOwnProperty | src/admin/api-client.ts:249 | `hasOwnProperty` throws exactly for `null`, `undefined` and an object whose own data shadows `hasOwnProperty`, and then with a TypeError. Otherwise it is true exactly for an object holding the key, or for an array or string and the key `length` or an index below its length. |
| Installation.Validate | src/admin/application.ts:37-51 | validate succeeds exactly when the key is the public key and the lower-cased MD5 of the signed message equals the lower-cased validation hash. A wrong key fails with "Request parameters are not correct.". A right key with a wrong hash fails with "Checksums doesn't match.". |
| Installation.KeyCheckedBeforeHashing | src/admin/application.ts:38-41 | A wrong key gives the same refusal whatever the hash function, so nothing is hashed. |
| Installation.SignedMessageSorted | src/admin/application.ts:43-45 | The signed message is the `|`-join of the three fields in ascending code-unit order, followed by the secret. This holds for any ascending arrangement, independently of how the sort works. |
| Installation.SignedMessagePermutation | src/admin/application.ts:43-45 | Reordering the three signed fields leaves the signed message unchanged. |
| Installation.ValidatePermutation | src/admin/application.ts:43-50 | Requests whose signed fields differ only in order validate alike. |
| Installation.ValidateIgnoresHashCase | src/admin/application.ts:47 | Changing the ASCII letter case of the validation hash never changes the outcome. |
| Installation.CreateAuthToken | src/admin/application.ts:53-56 | The token is Base64 text: a multiple of four characters, at least 4·⌈n/3⌉ of them for n characters of credentials. |
| Installation.AuthTokenRoundTrip | src/admin/application.ts:53-56 | Decoding the token as Base64, then as UTF-8, gives back exactly the public key, `:` and the lower-cased MD5 of token plus secret. |
| Installation.CredentialsSplit | src/admin/application.ts:54-55 | For a public key without `:`, the text before the first `:` is the public key and the rest is the password. |
| Installation.AuthTokenDependsOnTokenOnly | src/admin/application.ts:53-55 | Only the request's token field enters the auth token. |
| Installation.AuthTokenInjective | src/admin/application.ts:55 | Different credentials never give the same token. |
| JsText.SortStrings | src/admin/application.ts:44 | `sort()` returns a permutation of its input in ascending UTF-16 code-unit order. |
| JsText.SortedUnique | src/admin/application.ts:44 | Two ascending sequences with the same elements are equal. |
| JsText.SortPermutationInvariant | src/admin/application.ts:44 | The sorted result does not depend on the input order. |
| JsText.LessTotal | src/admin/application.ts:44 | Code-unit order is total on strings. |
| JsText.LessTransitive | src/admin/application.ts:44 | Code-unit order is transitive. |
| JsText.JoinInjective | src/admin/application.ts:45 | Joining equally many parts with a one-character separator that no part contains loses nothing: equal joins mean equal parts. |
| JsText.Lower | src/admin/application.ts:47 | Lower-casing maps each character to its lower-case letter and keeps the length. |
| JsText.LowerAbsorbsCase | src/admin/application.ts:47 | For ASCII letter case, lower-casing after upper- or lower-casing is plain lower-casing. |
| Utf8.DecodeEncode | src/admin/application.ts:55 | Strict UTF-8 decoding of the bytes a string encodes to gives back the string. |
| Utf8.EncodeDecode | src/admin/application.ts:55 | Any bytes the strict decoder accepts are the encoding of the string it returns. |
| Utf8.EncodeInjective | src/admin/application.ts:55 | Distinct strings have distinct encodings. |
| Base64.Encode | src/admin/application.ts:55 | The Base64 text of n bytes has 4·⌈n/3⌉ characters. |
| Base64.DecodeEncode | src/admin/application.ts:55 | Decoding the Base64 text of any bytes gives them back. |
| Base64.EncodeDecode | src/admin/application.ts:55 | Any text the strict decoder accepts is the encoding of the bytes it returns. |

## Left out

- JsValues.Get: reading a code unit of a string by index is answered `undefined`. The unit may be half of a surrogate pair, which a `char` cannot hold, and the core never reads strings by index.
- JsValues.Get: objects have no prototype, so names inherited from `Object.prototype` (`constructor`, `toString`, …) read as `undefined`. The core reads only `Message`, `Id`, `WasSuccessful` and `Value`.
- HTTP transport: request-promise, cookie jars, the request options with the API key, the admin client constructor and the public clients. Each is replaced by a `fetch` or `send` function parameter.
- The process-wide `NODE_TLS_REJECT_UNAUTHORIZED` flag set around every request. It decides whether certificate errors, such as an expired certificate, become transport failures. Concurrent calls race on it, because each `finally` resets it. The transport parameter (`fetch`, `send`) is unconstrained, so it covers either outcome.
- Logging (`console.log`, `console.error`, `JSON.stringify` of the options, the data and the error). A `JsValue` holds only acyclic JSON data, so the stringify cannot throw on it. A cyclic or BigInt `data` passed to save would throw at the stringify, and save would reject through the catch before anything is sent. That case is not modelled.
- `get` and `remove`: single round trips. `get` returns the un-awaited promise, so its rejections bypass handleError.
- The public list and save accessors. They only call getList or save with a fixed endpoint. The list accessors (src/admin/api-client.ts:112-138) pass `Object.assign(opts, …)`, which throws when `opts` is undefined and mutates the caller's object. `saveWebHook` passes the endpoint options directly.
- AdminClient.GetList: requires that the transport stop paging at some page. Against a transport that always reports a next page, the source loops forever, and termination is not modelled.
- AdminClient.FetchPages: the same requirement as GetList.
- List bodies are typed as `Records` plus a boolean `HasNextPage`. A body whose `Records` is not iterable makes the source throw a TypeError, which is then handed to handleError. The model represents that as a transport failure carrying the TypeError.
- JavaScript numbers: timestamps and JSON numbers are whole. Fractional milliseconds, which `new Date` truncates, and floating-point rounding are not modelled.
- DateCodec.FormatDateIgnoresMilliseconds: stated for time values within ±8.64e15 ms. It holds for negative values too. It fails just above the limit, where t is an invalid date but t − t mod 1000 is valid.
- DateCodec.ParseStamp: `new Date(text + " UTC")` is engine-defined for this non-ISO form. The model reads the text `YYYY-MM-DD HH:MM:SS UTC` with month 1..12, day 1..31, hour below 24, and minute and second below 60, and treats every other text as an Invalid Date, although engines may accept more. Within that shape it reads zero-led years 0000..0999 at face value. formatDate never writes such a year, and engines may read two-digit-looking years differently, for example as 19xx or 20xx. The day is not checked against the month: MakeDay carries it over, so 2023-02-31 reads as 2023-03-03.
- DateCodec.ParseFormatRoundTrip: as a consequence, the round trip is claimed only for years 1000..9999.
- MD5 (RFC 1321): a function parameter with no assumed properties.
- JsText.Lower: `toLowerCase` is modelled for ASCII letters only. Full Unicode case mapping is not modelled. The MD5 side is a hex digest, which is ASCII, but the caller-supplied `validationHash` need not be.
- JsText.LowerAbsorbsCase: holds for the ASCII mapping only. Full Unicode mapping breaks it: `"ß".toUpperCase().toLowerCase()` is `"ss"`, not `"ß"`.
- Installation.ValidateIgnoresHashCase: proved for ASCII case changes only. Under full Unicode mapping, `"ﬀ".toUpperCase()` is `"FF"` while `"ﬀ".toLowerCase()` stays `"ﬀ"`. A hash beginning with `ﬀ` can fail the check while its upper-cased form passes.
- Utf8.Encode: Dafny characters are Unicode scalar values, so JavaScript strings holding a lone surrogate are not represented. Node replaces such a surrogate with U+FFFD.
- The `AppInstallationRequest` constructor's reading of the query object. A missing query field would be `undefined`, which sorts last and joins as the empty text. The request is a record of six strings.
