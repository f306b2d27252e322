# vcfTelExtractor in Dafny

A model of vcfTelExtractor, a small JavaScript library that pulls phone numbers
and contact records out of vCard (`.vcf`) text, with proofs about it.

`extractTel(path, options)` in index.js first rejects a falsy path. It then reads
the file and works in one of two modes:

- **Numbers mode** (`onlyNumbers`). Every hyphen and whitespace character becomes
  a space. The text is then searched globally with `/([0-9]{9,15})\b/g`, or with
  `/(\+[0-9]{1,15})\b/g` when `prefix` is set. Finally the strings `"3"` and `"0"`
  are filtered out.
- **Records mode** (the default). The text is split into lines, and each
  `KEY:VALUE` line is folded into the current contact. The tags `TEL`, `FN`,
  `EMAIL` and `VERSION` are renamed to `number`, `firstName`, `email` and
  `version`, and a `fields` list can filter them. A blank line ends a contact.

Two older entry points also exist: `extractTel` in extractTel.js and in
extractTelFromVcf.js. Each hands a callback every run of nine digits together
with the word characters after it, or `null` when there is none.

The project has seven modules:

- `Wrappers`: `Option` and `Result`.
- `JsText`: the JavaScript string primitives used here.
  - The `\d`, `\w` and `\s` classes.
  - `replace(/-|\s/g, " ")` as `Normalize`.
  - `split` on one character, with its inverse `Join`.
  - The falsiness of a path.
- `RegexScan`: the four global regular expressions.
  - `MatchAt` is one match attempt at one position.
  - `Scan` is the search of `String.prototype.match`.
  - It is proved to return exactly the leftmost-first, non-overlapping matches, which `LeftmostScan` defines without reference to the search.
- `ContactRecords`: records mode as functions over the lines.
  - Where a line throws a `TypeError` (`FirstCrash`).
  - One turn of the `forEach` loop (`Step`).
  - The whole fold (`Collect`).
  - Lemmas saying what the fold produces.
- `VcfTelExtractor`: `extractTel` of index.js.
  - `Extract` is the settled value of the promise.
  - `ExtractTel` is the step-by-step method proved equal to it. `CollectContacts` is the imperative loop it calls, proved equal to the records-mode result `ContactRecords.Contacts`. It carries the `forEach` loop that mutates `currentContact` and `contacts`.
- `ExtractExamples`: the repository's test scenarios, stated for every card of the same shape rather than for one literal file.
- `LegacyExtract`: the two older extractors, as the sequence of callback invocations each one makes.

The file read is a parameter throughout. `read: Result<string, string>` is either
the text the read delivers or the error it fails with.

## Model

| member | source | states |
|---|---|---|
| JsText.Normalize | index.js:43 | The length is kept. Each hyphen or whitespace character (the full ECMAScript `\s` set) becomes one space, and every other character stays as it is. |
| JsText.NormalizeIdempotent | index.js:43 | Normalising twice gives the same text as normalising once. |
| JsText.NormalizeNoSeparators | index.js:63 | A text with no hyphen and no whitespace comes out unchanged. |
| JsText.NormalizeAppend | index.js:43 | Normalisation works character by character, so it distributes over concatenation. |
| JsText.Split | index.js:51 | `split` returns at least one piece. No piece holds the separator, and the pieces joined with the separator give back the text. |
| JsText.SplitJoin | index.js:51 | Splitting the join of separator-free pieces gives back exactly those pieces. |
| JsText.SplitNoSeparator | index.js:55 | A line without a colon splits into just itself. |
| JsText.SplitAtFirst | index.js:55 | The first piece ends at the first separator, and the rest is split on its own. |
| RegexScan.NineDigitsAt | extractTel.js:13 | `[0-9]{9}\w*` succeeds at a position exactly when nine digits and then the greedy word run follow, and the end it reports is the only one possible. |
| RegexScan.PlainAt | index.js:44 | `[0-9]{9,15}\b` succeeds at a position exactly when the pattern accepts there, with a single possible end. |
| RegexScan.PrefixedAt | index.js:44 | The same holds for `\+[0-9]{1,15}\b`. |
| RegexScan.LegacyPlusAt | extractTel.js:14 | The same holds for `\+?[0-9]{9}\w*`, where the greedy `\+?` gives up the `+` only when the rest fails with it. |
| RegexScan.MatchAt | index.js:44 | One attempt of each pattern succeeds exactly when the pattern accepts at that position, and the end it reports is the only accepted one. |
| RegexScan.Scan | index.js:45 | The spans are in bounds, non-empty, in text order and do not overlap. |
| RegexScan.ScanIsLeftmost | index.js:45 | The search meets the leftmost-first definition. Every span is a match. Every position where an attempt succeeds lies inside some span. |
| RegexScan.LeftmostScanUnique | index.js:45 | Any sequence of spans meeting that definition is the one the search returns. |
| RegexScan.AcceptedShape | index.js:44 | An accepted match has the pattern's shape. Plain: 9 to 15 digits. Prefixed: `+` and 1 to 15 digits. Legacy: nine digits (after an optional `+`) and then word characters. It is never followed by a word character. |
| RegexScan.MatchesShape | index.js:44-45 | Every string `match` returns has its pattern's shape and is followed by a non-word character or the end of the text. |
| RegexScan.LegacyPlusTakesPlus | extractTel.js:14 | With `\+?`, a match that does not start with `+` is never preceded by a `+`. |
| RegexScan.NoMatchNoMatches | index.js:45 | `match` finds nothing exactly when no attempt succeeds anywhere in the text. |
| RegexScan.SoleMatch | index.js:45 | If one accepted match exists and no attempt succeeds outside it, that match is the whole result. |
| RegexScan.PlainSole | index.js:44 | Take a run of 9 to 15 digits that is not followed by a word character, in a text with no other two adjacent digits. The plain pattern returns exactly that run. |
| RegexScan.PrefixedSole | index.js:44 | Take a `+` with 1 to 15 digits that is not followed by a word character, in a text with no other `+`. The prefix pattern returns exactly that string. |
| ContactRecords.ParseLineColons | index.js:55 | The key is the text before the first colon, or the whole line when there is no colon, and then there is no value. The value is the text between the first and second colons, or up to the end of the line. |
| ContactRecords.ParseLineOf | index.js:55 | `KEY:VALUE` with no colon in either part gives back that key and that value. |
| ContactRecords.ParseLineNoColon | index.js:55 | A line without a colon is all key and has no value. |
| ContactRecords.MappedKeyTable | index.js:33-38 | `TEL`, `FN`, `EMAIL` and `VERSION` map to their names, in both directions. Any other key is used as it is. |
| ContactRecords.MappedToNumber | index.js:60-62 | Only `TEL` and `number` itself reach the `number` branch. |
| ContactRecords.FirstCrashIsFirst | index.js:54-76 | The loop throws exactly when some line throws, and then it throws the error of the first such line. |
| ContactRecords.FirstCrashAppend | index.js:54-76 | Over two runs of lines, the error is the first run's error, or else the second run's. |
| ContactRecords.MissingFieldsCrash | index.js:61 | With an options object that has no `fields`, any line other than a `BEGIN`/`END` line throws. Otherwise nothing throws. |
| ContactRecords.ParseLineColon | index.js:63 | A line with a colon has a value, so it never throws when `fields` is given. |
| ContactRecords.LineCrashWithFields | index.js:61-63 | When `fields` is given, a line throws exactly when it is a bare `TEL` or `number` and `number` passes the filter. It is never the missing-`fields` error. |
| ContactRecords.BareNumberCrash | index.js:61-63 | The same holds for a whole run of lines. |
| ContactRecords.CollectFromPrefix | index.js:72 | Contacts already pushed stay, in order, in front of everything pushed later. |
| ContactRecords.CollectWithinBlock | index.js:61-67 | Lines with no blank line among them only assign to the current contact. Only the final flush can emit it. |
| ContactRecords.BlankStep | index.js:69-75 | On a blank line the `''` property is deleted. The contact is pushed if anything is left, and a new empty contact is started. |
| ContactRecords.CollectAcrossBlank | index.js:69-75 | At a blank line, the contact built so far, minus its `''` property, is emitted if it is non-empty. The lines after it are then processed from an empty contact. |
| ContactRecords.CollectOneBlock | index.js:78 | Lines with no blank line among them give the contact they build, if it has any property, and nothing else. |
| ContactRecords.CollectBlankSeparated | index.js:69-78 | A blank line splits the result: the contact before it, if non-empty, followed by the result of the lines after it. |
| ContactRecords.AssignWrites | index.js:61-67 | A line either writes one property with its stored value or leaves the contact unchanged. |
| ContactRecords.BuildLastWriteWins | index.js:61-67 | A property is present exactly when it was already present or some line writes it. The last line that writes it decides its value. |
| ContactRecords.CollectFromWellFormed | index.js:69-78 | Starting from well-formed pushed contacts, the result stays well-formed. |
| ContactRecords.CollectWellFormed | index.js:69-78 | Every emitted contact has a property. Only the last one can still hold the `''` property. |
| ContactRecords.StepFiltered | index.js:61-67 | One loop turn keeps every contact, finished or not, within the filter, with its `number` normalised. |
| ContactRecords.CollectFromFiltered | index.js:61-67 | The same holds for the rest of the loop. |
| ContactRecords.CollectFiltered | index.js:61-67 | Every property of an emitted contact passes the `fields` filter, and every `number` value is normalised. |
| ContactRecords.DelimiterStep | index.js:57-59 | A `BEGIN` or `END` line neither throws nor changes the loop state. |
| ContactRecords.DelimiterLineIgnored | index.js:57-59 | Removing a `BEGIN` or `END` line changes neither the contacts nor the error. |
| ContactRecords.CollectFromCount | index.js:69-78 | The loop adds at most one contact per blank line, plus one. |
| ContactRecords.CollectCount | index.js:69-78 | There are at most as many contacts as blank lines, plus one. |
| VcfTelExtractor.DropStrays | index.js:46 | A string is in the result exactly when it is a match other than `"3"` or `"0"`. The result is no longer than the input. A single match is kept unless it is `"3"` or `"0"`. |
| VcfTelExtractor.DropStraysAppend | index.js:46 | Filtering a concatenation filters each part and keeps their order. With the one-element case of `DropStrays`, this fixes the result: the non-`"3"`/`"0"` matches, in order, with duplicates kept. |
| VcfTelExtractor.DropStraysNone | index.js:46 | The filter removes nothing from a list that holds neither string. |
| VcfTelExtractor.Extract | index.js:28-85 | The missing-path rejection happens exactly when the path is falsy. A read error is passed on unchanged. A resolved value means the read succeeded, and it holds numbers exactly when `onlyNumbers` is set. A `TypeError` comes only from records mode. |
| VcfTelExtractor.CollectContacts | index.js:50-79 | The `forEach` loop over the mutable `currentContact`/`contacts` state, ending on the first line that throws, returns the records-mode result. |
| VcfTelExtractor.ExtractTel | index.js:28-85 | The step-by-step promise body settles with the value `Extract` describes. |
| VcfTelExtractor.PhoneNumbersUnfiltered | index.js:44-46 | The `"3"`/`"0"` filter never removes anything, so the numbers are the matches themselves. |
| VcfTelExtractor.PhoneNumbersShape | index.js:43-47 | Every number is 9 to 15 digits, or with `prefix`, a `+` and 1 to 15 digits. |
| VcfTelExtractor.NumbersIgnoreFields | index.js:42-47 | In numbers mode the `fields` option plays no part. |
| VcfTelExtractor.RecordsShape | index.js:50-79 | Every resolved contact is non-empty, passes the `fields` filter and has its number normalised. Only the last contact can hold `''`. |
| VcfTelExtractor.EmptyFile | index.js:51-61 | An empty file resolves to no contacts when `fields` is given. Without `fields`, its one empty line throws. |
| VcfTelExtractor.EmptyFileDefault | vcfTelExtractor.test.js:68-72 | An empty file with no options resolves to `[]`. |
| ExtractExamples.CardContacts | index.js:50-79 | A six-line card whose values have no colon or newline gives at most one contact: its four properties as far as the filter admits them. It gives none when the filter admits none of them. |
| ExtractExamples.OneCardAllFields | vcfTelExtractor.test.js:114-119 | Without options, a one-card file whose number has no hyphen or whitespace resolves to `{version, firstName, number, email}` holding the card's values. |
| ExtractExamples.OneCardSomeFields | vcfTelExtractor.test.js:54-66 | With `fields: ['number', 'firstName']`, a one-card file whose number has no hyphen or whitespace keeps only those two properties, holding the card's values. |
| ExtractExamples.OneCardPrefixed | vcfTelExtractor.test.js:40-45 | With `onlyNumbers` and `prefix`, take a card whose number is a `+` and 9 to 15 digits, with no other `+` in the file. It gives exactly that number, whatever `fields` is. |
| ExtractExamples.OneCardUnprefixed | vcfTelExtractor.test.js:47-52 | Without `prefix`, the same card gives its number without the `+`. This holds for any `fields` and for a `fields` that is absent (the tests at lines 74-83 and 107-112). |
| ExtractExamples.CollectCards | index.js:54-78 | Cards whose numbers have no hyphen or whitespace, separated by blank lines and followed by any number of blank lines, fold into one contact per card, holding its values, in order. |
| ExtractExamples.SeveralCards | vcfTelExtractor.test.js:85-105 | Such a file (numbers without hyphens or whitespace), read without options, resolves to one contact per card, in order. This covers the two-contact file and the ten-thousand-card file. |
| LegacyExtract.LegacyMatches | extractTel.js:12-15 | `match` gives `null` exactly when no attempt succeeds. Otherwise it gives the non-empty list of matches. |
| LegacyExtract.Settle | extractTel.js:7-16 | The reader's callback passes a read error on unchanged and does no matching. Otherwise it delivers the matches. |
| LegacyExtract.ExtractTel | extractTel.js:3-18 | A falsy path makes two callback calls: the path message, then the read's outcome. Otherwise there is one call. The last call carries the read's error or its matches. |
| LegacyExtract.ExtractTelFromVcf | extractTelFromVcf.js:8-22 | Exactly one callback call, whatever the path: the read's error, or its matches. |
| LegacyExtract.SameCallWithPath | extractTelFromVcf.js:8-22 | With a truthy path, both legacy extractors make the same single call. |
| LegacyExtract.MissingPathTwoCalls | extractTel.js:6-7 | A falsy path adds the path message in front of the call the read would make anyway. |
| LegacyExtract.LegacyShape | extractTel.js:13-15 | Every delivered match is nine digits, then word characters. Only `countryPrefix` allows a leading `+`. |
| LegacyExtract.LegacyBoundaries | extractTelFromVcf.js:17-19 | A match is never followed by a word character. With `countryPrefix`, a `+` just before the digits is always part of the match. |

## Behaviour of the code worth knowing

- Separators are replaced one character at a time. A run of hyphens or spaces becomes the same number of spaces, not one (`JsText.Normalize`).
- `let [key, value] = line.split(":")` keeps only the text between the first and second colons as the value. Later colons and anything after them are dropped (`ContactRecords.ParseLineColons`).
- A line without a colon stores `undefined` under its key. When the key maps to `number` and passes the filter, `value.replace` throws a `TypeError` and the promise rejects with it (`ContactRecords.LineCrashWithFields`).
- An options object without `fields` makes every line except `BEGIN`/`END` throw on `options.fields.length`. This includes the single empty line of an empty file (`VcfTelExtractor.EmptyFile`).
- With `prefix`, the number pattern requires the `+` and accepts 1 to 15 digits after it.
- The `"3"`/`"0"` filter is modelled as written. It is proved never to remove anything (`VcfTelExtractor.PhoneNumbersUnfiltered`).

## Left out

- File I/O: `readFile` in readFile.js and extractTelFromVcf.js:1-6 is not part of this model. Its outcome is the `read` parameter.
- Promises and callbacks are not modelled as asynchrony. The settled value and the ordered list of callback calls are modelled instead.
- extractTel.js:1 imports the promise-style readFile.js but calls it with a callback (extractTel.js:7), which readFile.js never calls. `LegacyExtract.ExtractTel` models the callback as the file intends it: called with the read's outcome.
- Reading with a missing path (`readFile(undefined)` after the path message in extractTel.js) is modelled as an ordinary read outcome. A synchronous throw from the file system is not modelled.
- The top-level call with a fixed path and `console.log` (extractTelFromVcf.js:25-32) is left out, because it is I/O.
- Options are modelled with boolean flags and an optional `fields` list. Truthiness of non-boolean values such as `onlyNumbers: 'invalid'` is the flag being `true`. A `null` options object, and a `fields` that is neither absent nor an array, are not modelled.
- `keyMapping[key]` on inherited object keys (for example `constructor` or `__proto__`), and assignment through `__proto__`, are not modelled. Contacts are plain maps.
- The order of a contact's properties is not modelled. Contacts are maps.
- Strings are sequences of Unicode scalar values, not UTF-16 code units.
- The `ExtractExamples` lemmas cover the test files' shape for every card whose values have no colon or newline, not the literal test strings themselves. In records mode they also require a number with no hyphen or whitespace, because the stored number is the normalised one (`1-2` is stored as `1 2`). In numbers mode they require no other `+`, or no other adjacent digits, in the file.
