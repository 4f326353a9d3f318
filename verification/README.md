# compmode message core, modelled in Dafny

compmode wraps a build command and pulls compiler diagnostics out of its
output so that an editor can jump to them. This project models the three
pieces that hold its logic:

- **Message conversion** (`src/message.rs`). One regex match becomes a
  `Message`. `is_error` comes from a `type` group that lower-cases to
  `error`, or from a `type_error` group being present. `msg` and `file` are
  required. `line` and `col` are optional `usize`s. The span is that of the
  whole match. Equality compares only span, line and column.
- **The message parser** (`src/parser.rs`). `new` compiles every pattern of
  every group in order and starts at position 0. `parse` runs every pattern's
  full match iteration, in pattern order, and shifts each span by the
  position. One match that does not convert fails the whole call. `advance`
  moves the position.
- **The null-separated CSV writer** (`src/report.rs`, `format_csv` and
  `format_with`). It writes a fixed header, then one `\n`-prefixed record per
  message. The severity cell is `1` or `0`, absent numbers leave an empty
  cell, and nothing is escaped.

Modules: `Wrappers` (Option/Result), `Decimal` (`parse::<usize>` and
`to_string`), `Strings` (ASCII lower-casing; join, split, count),
`Messages`, `Parser` and `Reports`.

The regex engine is a parameter. `Parser.Compiler` stands for whether
`Regex::new` accepts a pattern. `Parser.Matcher` stands for the sequence of
matches `captures_iter` yields. A match (`Messages.Captures`) is a map from
group name to captured text, plus the group-0 span. A group that is absent
from the pattern, or did not take part in the match, has no entry. The
engine's promise that a match never ends before it starts is a subset-type
constraint.

The `unwrap` calls of the conversion panic in the source, under a TODO to
turn them into errors. Here they return `Failure(MissingGroup(..))` or
`Failure(MalformedNumber(..))`. Fields are taken in the order the struct
literal evaluates them (`msg`, `file`, `line`, `col`), so the first missing
or malformed one is reported.

Nothing in the code calls `parse` or `advance` in a loop. `parse` applies
every pattern with all of its matches, and one bad match fails the whole
call.

## Model

| member | source | states |
|---|---|---|
| Decimal.NatToString | src/report.rs:28-36 | the decimal rendering of a line or column is non-empty, all ASCII digits, and starts with `0` only for zero |
| Decimal.DigitsValueOfNatToString | src/report.rs:29 | the digits written for a number have that number's value |
| Decimal.ParseUsizeOfNatToString | src/message.rs:46-47 | `parse::<usize>` gives back every `usize` from its decimal text, with or without a leading `+` |
| Decimal.ParseUsize | src/message.rs:46-47 | a successful `parse::<usize>` means the text, after one optional leading `+`, is non-empty ASCII digits whose value is the result, and that value is at most `usize::MAX` |
| Decimal.ParseUsizeRejects | src/message.rs:46-47 | any text with a character other than a digit is rejected, except a `+` in first position, so such a `line`/`col` capture fails conversion |
| Decimal.ParseUsizeRejectsExamples | src/message.rs:46-47 | empty text, a lone `+`, `-1`, `1a` and ` 1` are not numbers |
| Decimal.ParseUsizeAccepts | src/message.rs:46-47 | leading zeros and a `+` sign are accepted (`007` is 7, `+33` is 33) |
| Messages.Equal | src/message.rs:15-21 | two messages are equal exactly when their (span, line, column) keys agree |
| Messages.EqualIsEquivalence | src/message.rs:15-21 | that equality is reflexive, symmetric and transitive |
| Messages.EqualIgnoresText | src/message.rs:15-21 | changing `is_error`, `msg` or `file` never changes equality |
| Messages.FromCaptures | src/message.rs:26-54 | conversion succeeds exactly when `msg` and `file` are present and every present `line`/`col` parses. A missing `msg` is reported first, then a missing `file`. On success: `msg` and `file` are copied verbatim; `line`/`column` are absent exactly when their group is, else the parsed value; the span is group 0's, with start <= end; `is_error` holds exactly when `type_error` is present or `type` lower-cases to `error` |
| Messages.ErrorWordAnyCase | src/message.rs:28-32 | `type` counts as an error exactly when it is `error` in some mix of upper and lower case |
| Messages.TypeErrorMarkerAlone | src/message.rs:36-38 | a present `type_error` group makes an error even when it is empty and `type` says `warning` |
| Messages.NotAnError | src/message.rs:28-38 | `type` = `warning` with no marker, or no `type` and no marker at all, gives `is_error` false |
| Messages.FromCapturesOfMessage | src/message.rs:42-53 | every message whose numbers fit a `usize` is recovered exactly from the captures that describe it, so conversion loses nothing |
| Messages.CargoErrorExample | src/patterns/cargo.rs:46-59 | the captures expected for the repository's cargo error sample give an error message for `src/groups.rs`, line 33, column 1 |
| Parser.New | src/parser.rs:12-28 | construction succeeds exactly when every pattern of the groups, concatenated in group order and then in-group order, compiles. The parser then holds those patterns in that order at position 0. Otherwise the error names the first pattern that fails, and every earlier pattern compiled |
| Parser.Parse | src/parser.rs:30-48 | the result is the conversion of all matches of all patterns, in pattern order and then iteration order: one message per match, each span moved by the position on both ends (length kept). If any match fails to convert, the result is the first such failure and no messages |
| Parser.ConvertsToUnique | src/parser.rs:30-47 | the outcome of `parse` is determined by the parser and input alone |
| Parser.ParseTwice | src/parser.rs:30 | `parse` takes the parser by shared reference, so parsing the same input twice gives the same result |
| Parser.ParseOrder | src/parser.rs:33-44 | match `k` of pattern `i` becomes the message at index (matches of earlier patterns) + `k`, which comes before every message of a later pattern |
| Parser.FlattenLength | src/parser.rs:33-44 | the number of messages of a successful parse is the total number of matches over all patterns |
| Parser.Advance | src/parser.rs:50-52 | `advance(n)` raises the position by exactly `n` and keeps the patterns |
| Parser.AdvanceShiftsParse | src/parser.rs:37-41 | after `advance(n)`, a successful parse of the same input reports the same messages with every span `n` further on |
| Parser.FailureIgnoresPosition | src/parser.rs:35 | a failing parse fails with the same error at any position |
| Parser.SpansWithinInput | src/parser.rs:37-41 | when the engine reports matches that end within the input's UTF-8 byte length, every span lies within [position, position + that byte length] |
| Parser.NoPatternsNoMessages | src/parser.rs:31-47 | a parser without patterns returns no messages and cannot fail |
| Reports.HeaderText | src/report.rs:18 | the header is `is_error`, `msg`, `file`, `line`, `column` joined by the separator |
| Reports.TableEmpty | src/report.rs:18-20 | with no messages the output is exactly the header |
| Reports.TableAppend | src/report.rs:20-22 | each further message adds exactly one record at the end, introduced by `\n` |
| Reports.RecordText | src/report.rs:21-36 | a record is the severity cell `1`/`0`, `msg`, `file`, the line cell and the column cell, separated by the separator; an absent number is an empty cell |
| Reports.AppendRecord | src/report.rs:21-36 | one loop step appends a newline and that message's record and nothing else |
| Reports.FormatCsv | src/report.rs:16-38 | the output is the old output followed by the header line and one record line per message, in message order, joined by `\n`; the old output is kept as a prefix |
| Reports.FormatWith | src/report.rs:40-57 | NullSep yields the CSV table with separator `\0`. Debug yields the debug rendering. JSON yields the serialiser's text, or fails when the serialiser fails |
| Reports.RecordSeparators | src/report.rs:20-36 | a record whose `msg` and `file` hold no `\0` contains exactly four `\0` separators |
| Reports.NullSepRoundTrip | src/report.rs:15-37 | splitting a NullSep table on `\n` and then on `\0` gives back each message's severity, text, file, line and column, in order, when no text contains `\n` or `\0` |
| Reports.SeparatorInTextIsAmbiguous | src/report.rs:15 | since nothing is escaped, two different messages (a `\0` inside `msg` versus inside `file`) give the same table |

## Left out

- The regex engine (`Regex::new`, `captures_iter`) is a pair of parameters. Its matching semantics are not modelled, and neither are the pattern texts in `src/patterns/cargo.rs`, `src/patterns/gcc.rs` and `src/groups.rs`.
- `src/groups.rs`, `src/patterns.rs`: constant pattern tables built by macros, with no behaviour; `new` takes the groups as a plain sequence of sequences of pattern texts.
- `src/cli.rs`, `src/main.rs`: argument parsing and a debug print only.
- A streaming driver, a two-line look-ahead and first-match-wins dispatch: none exists in `src/parser.rs`, so none is modelled.
- Parser.New: the error names the failing pattern but drops the regex crate's own error text and the context wording.
- Reports.FormatWith: the JSON error keeps the serialiser's text but not the "Failed to serialize report" context. The debug and JSON renderings are library code (`{:#?}`, serde_json) and are parameters.
- Messages.FromCaptures: a missing group or malformed number is a `Failure` value where the source panics through `unwrap`.
- Messages.FromCaptures: `to_lowercase` is modelled as ASCII lower-casing. For the comparison with `error` this changes nothing, since no non-ASCII character lower-cases to `e`, `r` or `o`.
- Parser.Parse: `position + span` uses unbounded naturals. The source's `usize` addition would overflow (a panic in debug builds, wrap-around in release builds) only past 2^64 - 1 bytes.
- Parser.Advance: `position += amount` uses unbounded naturals too; the same `usize` overflow is not modelled.
- Parser.Parse: the `?` on the conversion never propagates in the source, because `try_from` panics instead of returning `Err`. The `Failure` outcome of `Parse` exists only because `Messages.FromCaptures` returns its failures.
- Decimal.ParseUsize: assumes a 64-bit `usize`, so the largest accepted value is 2^64 - 1.
- `Report`'s `command`, `root_directory` and `exit_code` are carried but not used by the CSV writer; the span of a message is not written to the CSV.
