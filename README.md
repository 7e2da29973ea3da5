# simple-logger, modelled in Dafny

A model of the core of `mafin/simple-logger`, a small PSR-3 logger for PHP.

- `Logger::log` checks the level name against the PSR-3 rank table and throws for an unknown name.
- It then drops the entry when the level is less severe than the logger's threshold.
- Otherwise it has the formatter render one line and hands that line to the writer.
- The default formatter casts the message to a string and interpolates `{key}` placeholders from the context.
  - It builds a replacement table in one `foreach`: only keys whose placeholder occurs in the message are included, each with its value stringified.
  - It applies the table with a single `strtr` pass.
- It prefixes the line with `[Y-m-d H:i:s] [level] ` and ends it with an end of line.

Modules, one file each:

| file | module | models |
|---|---|---|
| `wrappers.dfy` | `Wrappers` | `Option` and `Result` |
| `levels.dfy` | `Levels` | the eight PSR-3 levels, the `LEVELS` rank table, the `isset` lookup by name |
| `decimal.dfy` | `Decimal` | PHP's `(string)` cast of an integer; the zero padding of `date()` fields |
| `phpstring.dfy` | `PhpString` | `str_contains`; the array form of `strtr`, with its theory under placeholder keys |
| `phpvalues.dfy` | `PhpValues` | context values, messages, and the foreign code the formatter calls (`__toString`, `json_encode`) |
| `formatter.dfy` | `DefaultLogFormatter` | `stringify`, the `interpolate` loop and its specification, `date`, `format`, and a reader for the line layout |
| `logger.dfy` | `SimpleLogger` | the in-memory writer, `shouldLog`, `log` as a specification function and as a method of the `Logger` class |

Modelling choices:

- **The clock is a parameter.** `date('Y-m-d H:i:s')` becomes `DateText(now)` for a `Clock` reading passed to `Log`.
- **Foreign code is a `Host` value.** `__toString` of user classes and `json_encode` are not modelled. They are functions in a `Host`. `json_encode` may fail, which stands for the `JsonException` thrown under `JSON_THROW_ON_ERROR`.
- **Exceptions are `Result` values.** `log` returns `Err(InvalidLevel(name))` for the `InvalidArgumentException` and `Err(FormatFailed(...))` for an exception out of the formatter.
- **The context is an ordered sequence.** It is `seq<(string, Value)>`, a PHP array in insertion order. Theorems that look a key up require distinct keys, as a PHP array has.
- **The writer is a class.** `MemoryWriter` has a `lines` field, and `Write` appends to it.
- **The logger is a class.** `Logger` holds its threshold, writer and formatter in `const` fields, matching the `readonly` properties.

## Model

| member | source | states |
|---|---|---|
| Levels.Rank | src/Logger.php:18-27 | every level has a rank in 0..7; rank 0 is exactly `emergency` and rank 7 exactly `debug` |
| Levels.ParseLevel | src/Logger.php:54 | the lookup succeeds only with the level whose canonical name is the given string, and fails only when no level has that name (case-sensitive) |
| Levels.FromRank | src/Logger.php:18-27 | every rank 0..7 belongs to a level |
| Levels.RankIsBijection | src/Logger.php:18-27 | the rank table is one-to-one and onto 0..7: `FromRank` and `Rank` undo each other, and distinct levels have distinct ranks |
| Levels.ParseName | src/Logger.php:18-27 | looking up a level's own name gives that level |
| Decimal.Digits | src/Infrastructure/DefaultLogFormatter.php:56-57 | the decimal text of a natural number is non-empty, all digits, and has a leading zero only for 0 |
| Decimal.DigitsRoundTrip | src/Infrastructure/DefaultLogFormatter.php:56-57 | the digits of `n` denote `n` |
| Decimal.IntToString | src/Infrastructure/DefaultLogFormatter.php:56-57 | the `(string)` text of an integer is canonical: a minus sign exactly for negative numbers, then digits with no leading zero, except for `"0"` itself |
| Decimal.IntToStringRoundTrip | src/Infrastructure/DefaultLogFormatter.php:56-57 | the `(string)` text of an integer reads back as that integer, sign included |
| Decimal.ZeroPad | src/Infrastructure/DefaultLogFormatter.php:16 | padding gives at least `width` characters: the original text at the end and only `0` characters before it |
| Decimal.ZeroPadValue | src/Infrastructure/DefaultLogFormatter.php:16 | a zero-padded digit string denotes the same number as before padding |
| Decimal.DigitsFit | src/Infrastructure/DefaultLogFormatter.php:16 | a number below 10^w has at most w digits, so its padded field is exactly w wide |
| PhpString.ContainsInfix | src/Infrastructure/DefaultLogFormatter.php:36 | `str_contains` finds a needle placed anywhere in the haystack |
| PhpString.ContainsSplit | src/Infrastructure/DefaultLogFormatter.php:36 | conversely, when `str_contains` holds, the haystack is some text, then the needle, then some text |
| PhpString.ContainsIffInfix | src/Infrastructure/DefaultLogFormatter.php:36 | `str_contains` holds exactly when the needle is an infix of the haystack |
| PhpString.Placeholder | src/Infrastructure/DefaultLogFormatter.php:34 | the placeholder of a key is the key between `{` and `}`, two characters longer |
| PhpString.LongestKey | src/Infrastructure/DefaultLogFormatter.php:43 | the match `strtr` takes at a position is a key of the table that is a prefix of the rest of the text |
| PhpString.LongestKeyIsLongest | src/Infrastructure/DefaultLogFormatter.php:43 | no longer key matches at that position |
| PhpString.Strtr | src/Infrastructure/DefaultLogFormatter.php:43 | an empty replacement table leaves the text as it is |
| PhpString.ScanSplitsBeforeBrace | src/Infrastructure/DefaultLogFormatter.php:43 | with placeholder keys, the scan of `a + b` splits into the scans of `a` and of `b` when `b` starts at an opening brace |
| PhpString.ScanCopiesText | src/Infrastructure/DefaultLogFormatter.php:43 | text without an opening brace is copied unchanged |
| PhpString.PlaceholderReplaced | src/Infrastructure/DefaultLogFormatter.php:43 | a placeholder that is a key is replaced by its value, and scanning resumes after it |
| PhpString.UnknownPlaceholderKept | src/Infrastructure/DefaultLogFormatter.php:43 | a placeholder that is not a key is copied, and scanning resumes after it |
| PhpString.PlaceholderOccurrenceReplaced | src/Infrastructure/DefaultLogFormatter.php:43 | `strtr(a + "{k}" + b) == strtr(a) + value(k) + strtr(b)`: each occurrence is replaced and the inserted value is not scanned again |
| DefaultLogFormatter.Stringify | src/Infrastructure/DefaultLogFormatter.php:46-73 | `null` gives `"null"`; booleans give `"true"`/`"false"`; integers give their canonical `(string)` text, which reads back as the integer; strings give themselves; `Stringable` objects give `__toString`; arrays give their JSON, or fail exactly when encoding fails; other objects give `[object <class>]`; anything else gives `[unknown type]` |
| DefaultLogFormatter.Replacements | src/Infrastructure/DefaultLogFormatter.php:32-41 | every key of the table built by the loop occurs in the message (that the keys are the context's placeholders is `ReplacementsDomain`) |
| DefaultLogFormatter.AddEntry | src/Infrastructure/DefaultLogFormatter.php:33-41 | one iteration: an earlier failure is kept; an entry whose placeholder does not occur changes nothing; a new failure happens only for an occurring placeholder whose value cannot be stringified; on success no earlier key is lost and only the entry's own placeholder may change |
| DefaultLogFormatter.Interpolation | src/Infrastructure/DefaultLogFormatter.php:26-44 | an empty context gives the message itself; interpolation fails exactly when building the table fails, with the same error; an empty table gives the message unchanged |
| DefaultLogFormatter.ReplacementsErrorPersists | src/Infrastructure/DefaultLogFormatter.php:40 | once one entry's stringification throws, the whole loop ends with that error |
| DefaultLogFormatter.Interpolate | src/Infrastructure/DefaultLogFormatter.php:26-44 | the method with the `foreach` loop computes exactly `Interpolation`, including the early exit when `stringify` throws |
| DefaultLogFormatter.ReplacementsDomain | src/Infrastructure/DefaultLogFormatter.php:33-41 | a string is in the table exactly when it occurs in the message and is the placeholder of some context key |
| DefaultLogFormatter.ReplacementsValue | src/Infrastructure/DefaultLogFormatter.php:33-41 | with distinct keys, a key whose placeholder occurs maps to its own stringified value |
| DefaultLogFormatter.ReplacementsFailure | src/Infrastructure/DefaultLogFormatter.php:36-40 | interpolation fails exactly when some key whose placeholder occurs has a value that cannot be stringified; values of absent keys are never looked at |
| DefaultLogFormatter.UnmatchedEntryIgnored | src/Infrastructure/DefaultLogFormatter.php:36-38 | removing a context entry whose placeholder does not occur leaves the table unchanged |
| DefaultLogFormatter.UnmatchedKeyIgnored | src/Infrastructure/DefaultLogFormatter.php:36-38 | removing such an entry leaves the interpolated message unchanged |
| DefaultLogFormatter.ReplacementsArePlaceholders | src/Infrastructure/DefaultLogFormatter.php:34 | with brace-free keys, every key of the table is a placeholder `{name}` |
| DefaultLogFormatter.EmptyContextPassesThrough | src/Infrastructure/DefaultLogFormatter.php:28-30 | an empty context returns the message unchanged, placeholders included |
| DefaultLogFormatter.InterpolationReplacesOccurrence | src/Infrastructure/DefaultLogFormatter.php:26-44 | each occurrence of a context key's placeholder becomes that key's stringified value; the text on either side is interpolated on its own |
| DefaultLogFormatter.InterpolationKeepsUnknownPlaceholder | src/Infrastructure/DefaultLogFormatter.php:26-44 | a placeholder whose name is not a context key stays in the output as written |
| DefaultLogFormatter.TwoPlaceholders | src/Infrastructure/DefaultLogFormatter.php:26-44 | a message with two distinct placeholders and string values gives the text with the values in place; a value that itself looks like a placeholder is not replaced again |
| DefaultLogFormatter.Field | src/Infrastructure/DefaultLogFormatter.php:16 | a numeric date field is all digits, at least `width` wide, and exactly `width` wide when the number fits |
| DefaultLogFormatter.FieldValue | src/Infrastructure/DefaultLogFormatter.php:16 | a date field denotes the number it was written from |
| DefaultLogFormatter.DateText | src/Infrastructure/DefaultLogFormatter.php:16 | the date text contains no bracket |
| DefaultLogFormatter.DateTextLayout | src/Infrastructure/DefaultLogFormatter.php:16 | for in-range fields, the date is 19 characters with `-`, `-`, ` `, `:`, `:` at positions 4, 7, 10, 13, 16 |
| DefaultLogFormatter.DateTextFields | src/Infrastructure/DefaultLogFormatter.php:16 | for in-range fields, the six digit groups of the date denote the year, month, day, hour, minute and second of the clock reading |
| DefaultLogFormatter.MessageText | src/Infrastructure/DefaultLogFormatter.php:14 | a plain message gives its own text; a `Stringable` message gives its `__toString` |
| DefaultLogFormatter.Line | src/Infrastructure/DefaultLogFormatter.php:18 | the line starts with `[`, ends with the end of line, and is 7 characters longer than its three parts |
| DefaultLogFormatter.Format | src/Infrastructure/DefaultLogFormatter.php:12-19 | `format` fails exactly when interpolation fails, with its error; otherwise the line starts with `[`, ends with the end of line, and contains `[<level>]` |
| DefaultLogFormatter.ParseLine | src/Infrastructure/DefaultLogFormatter.php:18 | a line that reads back is exactly the layout of the parts read, and neither the timestamp nor the level read contains `]` |
| DefaultLogFormatter.LineRoundTrip | src/Infrastructure/DefaultLogFormatter.php:18 | a line reads back into the timestamp, level and message it was built from, when neither the timestamp nor the level contains `]` |
| DefaultLogFormatter.FormatReadsBack | src/Infrastructure/DefaultLogFormatter.php:12-19 | for a level without `]`, a formatted line reads back into the date, the level and the interpolated message |
| DefaultLogFormatter.StringableMessageFormatted | src/Infrastructure/DefaultLogFormatter.php:14 | a `Stringable` message is formatted exactly like its `__toString` text |
| SimpleLogger.MemoryWriter.Write | tests/LoggerTest.php:147-150 | a written line is appended after the lines already written |
| SimpleLogger.DefaultFormatter | src/Logger.php:42 | the default formatter succeeds exactly when interpolating the message text succeeds |
| SimpleLogger.InvalidLevelMessage | src/Logger.php:55 | the exception text is `Invalid log level: ` followed by the level given |
| SimpleLogger.ShouldLog | src/Logger.php:66-69 | `emergency` passes under every threshold, and every level passes under `debug` |
| SimpleLogger.Decide | src/Logger.php:49-64 | an unknown level is an error naming it; a known level below the threshold is suppressed; otherwise the line is the formatter's output, or the formatter's error is passed on |
| SimpleLogger.Logger.constructor | src/Logger.php:32-43 | the logger keeps the writer and the threshold it is given, and uses the given formatter or else the default one |
| SimpleLogger.Logger.Log | src/Logger.php:49-64 | the result and the new writer contents follow `Decide`: exactly one line is appended when the entry is written, and none otherwise |
| SimpleLogger.ThresholdFilters | src/Logger.php:66-69 | under a threshold that is a level name, a level passes exactly when its rank is at most the threshold's |
| SimpleLogger.ShouldLogMonotone | src/Logger.php:66-69 | whenever a level passes, every more severe level passes too |
| SimpleLogger.DefaultThresholdAdmitsAll | src/Logger.php:34 | the default threshold `debug` lets every level through |
| SimpleLogger.ErrorThresholdExample | src/Logger.php:66-69 | under `error`, `error` passes and `info` does not |
| SimpleLogger.InvalidLevelAlwaysRejected | src/Logger.php:54-56 | an unknown level is rejected under every threshold and formatter |
| SimpleLogger.SuppressedIgnoresFormatter | src/Logger.php:58-62 | a suppressed call never reaches the formatter: its outcome is the same with any formatter |
| SimpleLogger.DefaultLogLine | src/Logger.php:58-63 | with the default formatter, a line is written exactly when the level passes and interpolation succeeds; the line reads back into the date, the level name and the interpolated message |
| SimpleLogger.UnknownThresholdAdmitsOnlyEmergency | src/Logger.php:66-69 | the filter as written, under a threshold that is not a level name: only `emergency` passes |
| SimpleLogger.PlainMessageWritten | src/Logger.php:58-63 | a plain message without context, at a level that passes, is written as its formatted line |
| SimpleLogger.LogPlain | src/Logger.php:58-63 | on a logger with the default formatter, a plain message at a level at least as severe as the threshold is accepted and its line is appended |
| SimpleLogger.LogBelowThreshold | src/Logger.php:58-60 | a call below the threshold is accepted and leaves the writer as it was |
| SimpleLogger.SequentialLogging | tests/LoggerTest.php:29-39 | at threshold `debug`, an `info` then an `error` call write both lines, in call order |
| SimpleLogger.LevelFiltering | tests/LoggerTest.php:41-51 | at threshold `error`, the `info` call writes nothing and the `error` call writes its line |

## Left out

- The `FileLogWriter` class (directory creation, appending to a file, the `RuntimeException` on failure) is not part of this model. The writer is the in-memory `MemoryWriter`, and a write cannot fail.
- The string-path overload of the constructor (`src/Logger.php:38-40`) is left out, because it only builds a `FileLogWriter`.
- The per-level convenience methods (`info`, `error`, …) come from PSR-3's `AbstractLogger` and each forwards to `log`. They are not modelled; `Log` takes the level name.
- The interfaces under `src/Contract/` are not declared as such. A formatter is any `FormatFn`; the one writer is `MemoryWriter`, so the model does not capture other writers, and only `JsonEncodeFailed` stands for what a formatter throws.
- Floats are not modelled. `stringify` of a float, PHP's float-to-string conversion, is left out.
- PHP integers are 64-bit; the model's integers are unbounded, which only matters outside the 64-bit range.
- Context keys are strings. PHP integer keys, such as `{0}`, are not modelled.
- The text of `json_encode`, and which arrays it can encode, is foreign to the model (`Host.jsonEncode`).
- `PHP_EOL` is taken as `"\n"`. On Windows it is `"\r\n"`.
- `date()` reads the process clock and the default time zone. The model takes the broken-down `Clock` reading as a parameter. A field wider than its width, such as a five-digit year, is written in full, as `date()` does; only `DateTextLayout` and `DateTextFields` assume every field fits. Negative years are not modelled: the clock fields are natural numbers.
- Theorems about `strtr` assume brace-free context keys. A key containing `{` or `}` still works in the model, but the general theorems say nothing about it.
- Interpolation: that no `{key}` of a matched key is left in the output holds per occurrence (`InterpolationReplacesOccurrence`), not for the whole output. An inserted value or the text around it can form a new placeholder: `strtr("{{a}}", ["{a}" => "a"])` is `"{a}"`.
- The PHP warning "Undefined array key" raised by `shouldLog` for an unknown threshold is not modelled; only the comparison result is.

## Findings

| source | as written | input that shows it | evidently intended | confidence | as-written member | corrected member |
|---|---|---|---|---|---|---|
| src/Logger.php:34, 66-69 | The constructor accepts any string as threshold. `shouldLog` then reads a missing entry of `LEVELS`, which is `null`, and `rank <= null` holds only for rank 0. | `new Logger($w, 'warn')`: `info`, `error` and even `critical` entries are silently dropped; only `emergency` is written. | The threshold is one of the eight level names, as `log` itself demands of the levels it is given. | medium, not executed | SimpleLogger.UnknownThresholdAdmitsOnlyEmergency | SimpleLogger.Logger.constructor (with SimpleLogger.ThresholdFilters) |
