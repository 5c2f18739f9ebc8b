# Redacting log formatter — a Dafny model

This project models the personal-data redaction at the heart of
`0x00-personal_data/filtered_logger.py`:

- `filter_datum(fields, redaction, message, separator)`: builds the regular
  expression `(f1|...|fn)=.+?SEP` and rewrites every match with `re.sub` to
  the part of the match before its first `=`, then `=`, the redaction text and
  the separator;
- `RedactingFormatter`: renders a log record with the layout
  `[HOLBERTON] %(name)s %(levelname)s %(asctime)-15s: %(message)s`, then
  passes the whole line through `filter_datum` with `***` and `;` and the
  field list it was built with;
- `PII_FIELDS` and the line written for each row of the `users` table.

Everything in this core is a pure computation. The model is a set of
datatypes, recursive functions and lemmas.

- `text.dfy` (`Text`): substring facts about plain strings.
- `redaction.dfy` (`Redaction`): the regular expression and `re.sub` written
  as an explicit scanner.
  - At each position the alternatives of the group are tried in list order.
  - An alternative matches when it is followed by `=` and a value exists.
  - A value is the shortest run of one or more characters, none a newline,
    that is followed by the separator (`.+?` followed by `SEP`).
  - On a match, the scanner emits `key=<redaction><sep>` and resumes after
    the match. Otherwise it copies one character.
- `redaction_properties.dfy` (`RedactionProperties`): which spans are
  rewritten, what replaces them, and that all other text is copied in order.
- `idempotence.dfy` (`Idempotence`): filtering twice is filtering once, for a
  one-character separator. A counterexample shows that this can fail for a
  two-character separator.
- `redaction_examples.dfy` (`RedactionExamples`): keys are not anchored, an
  empty field list redacts every value, where a value ends, repeated fields,
  and field names holding `=`.
- `formatter.dfy` (`Formatter`): the layout, `%-15s` padding, and the
  formatter.
- `user_rows.dfy` (`UserRows`): `PII_FIELDS`, the row template, and the
  end-to-end result for a row.

## How the code behaves where a reader might expect otherwise

The model follows the code, including where a natural reading of the
logger's purpose differs:

- **Keys are not anchored.** A key is found wherever it ends right before an
  `=`.
  - With the fields `["name"]`, `username=bob;` becomes `username=***;`
    (`RedactsUnanchoredKey`, `UsernameIsRedactedByName`).
  - The whole key `username` is written back, because the scan copies
    `user` first.
- **An empty field list redacts every value.** `'|'.join([])` is empty, so
  the pattern is `()=.+?;`, and every `=value;` is redacted
  (`EmptyFieldsRedactEveryValue`). It does not leave the message unchanged.
- **An empty value takes the next entry with it.** `.+?` needs at least one
  character, so `password=;x;` becomes `password=***;`
  (`EmptyValueAbsorbsNextField`).
- **Filtering twice is not filtering once in general.**
  - It holds for a one-character separator, a redaction text that is not
    empty and holds neither the separator nor a newline, and field names
    without `=` (`FilterDatumIdempotent`).
  - With the separator `;;` and the redaction `*;`, `f=x;;` becomes `f=*;;;`,
    and filtering that gives `f=*;;;;` (`TwoCharSeparatorNotIdempotent`).
- **The order of the field list can matter.** The alternatives of the group
  are tried in list order, which decides the match only when a field name
  holds `=`. With `["a=b", "a"]`, `a=b=;x;` becomes `a=***;`. With
  `["a", "a=b"]` it becomes `a=***;x;` (`LongerFieldFirstWins`,
  `ShorterFieldFirstWins`).
- **The row line ends in `;` with no trailing space** (line 92).

## Model

| member | source | states |
|---|---|---|
| Redaction.Alternatives | 0x00-personal_data/filtered_logger.py:30 | The alternatives of the group built by `'\|'.join(fields)`. An empty list gives the single empty alternative of `()`. It has no contract of its own. Its consequence is stated by RedactionExamples.EmptyFieldsRedactEveryValue. |
| Redaction.Redact | 0x00-personal_data/filtered_logger.py:31 | `re.sub` over the whole message, as a left-to-right scan. It has no contract of its own. Its properties are stated by RedactionProperties.CopiesUnmatchedPrefix, RedactsAtMatch, RedactsMatchedSpan and UnchangedWithoutMatch, and by Idempotence.RedactIdempotent. |
| Redaction.FilterDatum | 0x00-personal_data/filtered_logger.py:17-31 | `filter_datum`: the scan with the alternatives built from `fields`. It has no contract of its own. Its properties are stated by RedactionProperties.UnchangedWithoutKey, Idempotence.FilterDatumIdempotent and the RedactionExamples lemmas. |
| Redaction.ValueLen | 0x00-personal_data/filtered_logger.py:30 | `.+?SEP` picks the shortest value of at least one character, without a newline, that is followed by the separator. The result is None exactly when no such length exists. |
| Redaction.FirstMatch | 0x00-personal_data/filtered_logger.py:30 | The group `(f1\|...\|fn)` matches through an alternative of the list that is followed by `=` and a value. The result is None exactly when no alternative matches there. That the first such alternative in list order wins is stated by RedactionProperties.FirstMatchEarliest. |
| Redaction.KeyOf | 0x00-personal_data/filtered_logger.py:31 | `split('=')[0]` is a prefix of the match with no `=`, and it is followed by `=` unless it is the whole match. |
| RedactionProperties.KeyOfField | 0x00-personal_data/filtered_logger.py:31 | The key written back for a match through field `f` is `f` itself. |
| RedactionProperties.FirstMatchIs | 0x00-personal_data/filtered_logger.py:30 | When no field name has `=`, the match at a position is the unique field followed by `=` there, whatever its place in the list. |
| RedactionProperties.FirstMatchEarliest | 0x00-personal_data/filtered_logger.py:30 | The alternatives are tried in list order. If alternative `j` can match and none before it can, the match is through alternative `j` with the shortest value after it. With the None case of FirstMatch, this fixes the result for every input, including field names that hold `=`. |
| RedactionProperties.ValueLenIs | 0x00-personal_data/filtered_logger.py:30 | A value length that is admissible, with no shorter admissible one, is the length the lazy scan finds. |
| RedactionProperties.CopiesUnmatchedPrefix | 0x00-personal_data/filtered_logger.py:31 | Text before the first match is copied unchanged and in order. |
| RedactionProperties.UnchangedWithoutMatch | 0x00-personal_data/filtered_logger.py:31 | A message in which the pattern matches nowhere is returned unchanged. |
| RedactionProperties.RedactsAtMatch | 0x00-personal_data/filtered_logger.py:31 | A match `f=v<sep>` is replaced by `f=<redaction><sep>`, and the scan resumes right after the match. |
| RedactionProperties.RedactsMatchedSpan | 0x00-personal_data/filtered_logger.py:30-31 | A span `f=v<sep>`, with `f` a field and `v` the shortest value, becomes `f=<redaction><sep>`. The key and the separator stay and only the value changes. |
| RedactionProperties.RedactsField | 0x00-personal_data/filtered_logger.py:30-31 | The same for a one-character separator `c`: the value runs to the first `c` after its first character. |
| RedactionProperties.CopiesPlainText | 0x00-personal_data/filtered_logger.py:30-31 | A stretch in which no alternative followed by `=` occurs, followed by a character other than `=` that no alternative contains, is copied unchanged and in order. |
| RedactionProperties.UnchangedWithoutKey | 0x00-personal_data/filtered_logger.py:30-31 | If no alternative of the group followed by `=` occurs in the message, `filter_datum` returns it unchanged. The alternatives are the field names, or for an empty list the one empty alternative, and then any `=` counts. |
| Idempotence.ValueSurvivesTail | 0x00-personal_data/filtered_logger.py:30 | Whether a value exists after a stretch depends only on that stretch when the rest reaches the separator without a newline. |
| Idempotence.MatchAtStartComesFromOriginal | 0x00-personal_data/filtered_logger.py:30-31 | Rewriting the value of a later match creates no match before it. |
| Idempotence.RewrittenMatchAddsNoEarlierMatch | 0x00-personal_data/filtered_logger.py:30-31 | Filtering a text that starts with a match creates no match at the start of any non-empty text placed before it, if there was none there before. |
| Idempotence.UnmatchedStartStaysUnmatched | 0x00-personal_data/filtered_logger.py:30-31 | A position where no match starts still has none after the text after it has been filtered. |
| Idempotence.RedactIdempotent | 0x00-personal_data/filtered_logger.py:30-31 | A second `re.sub` pass over the output changes nothing, for a one-character separator, a redaction text that is non-empty and holds no separator or newline, and alternatives without `=`. |
| Idempotence.FilterDatumIdempotent | 0x00-personal_data/filtered_logger.py:17-31 | `filter_datum(F, R, filter_datum(F, R, m, c), c) == filter_datum(F, R, m, c)` under the same assumptions. |
| Idempotence.TwoCharSeparatorNotIdempotent | 0x00-personal_data/filtered_logger.py:30-31 | For a separator `dd` and a redaction `*d`, `f=x<dd>` becomes `f=*d<dd>`, and a second pass gives `f=*<dd><dd>`. With `d` = `;`: `f=x;;` becomes `f=*;;;`, then `f=*;;;;`. |
| RedactionExamples.NoMatchBeforeKey | 0x00-personal_data/filtered_logger.py:30 | Inside a key `wf` without `=`, no match can start before `f`, unless a longer field ends the key. |
| RedactionExamples.RedactsUnanchoredKey | 0x00-personal_data/filtered_logger.py:30-31 | In `wf=v<c>`, where `f` is a field and no longer field ends `wf`, the value is redacted and the whole key `wf` is kept. |
| RedactionExamples.UsernameIsRedactedByName | 0x00-personal_data/filtered_logger.py:30-31 | `["name"]` turns `username=bob;` into `username=***;`. |
| RedactionExamples.EmptyFieldsRedactEveryValue | 0x00-personal_data/filtered_logger.py:30 | With no fields, every `key=v<c>` with a key without `=` becomes `key=<redaction><c>`. |
| RedactionExamples.EmptyFieldsExample | 0x00-personal_data/filtered_logger.py:30-31 | With no fields, `a=b;` becomes `a=***;`. |
| RedactionExamples.PasswordRedacted | 0x00-personal_data/filtered_logger.py:30-31 | `["password"]` turns `password=hunter2;` into `password=***;`. |
| RedactionExamples.ValueEndsAtFirstSeparator | 0x00-personal_data/filtered_logger.py:30 | `password=hunter2;email=x;` becomes `password=***;email=x;`: the value stops at the first separator. |
| RedactionExamples.EmptyValueAbsorbsNextField | 0x00-personal_data/filtered_logger.py:30 | `password=;x;` becomes `password=***;`: an empty value runs on to the next separator. |
| RedactionExamples.RepeatedFieldRedactedEachTime | 0x00-personal_data/filtered_logger.py:31 | `password=a;password=b;` becomes `password=***;password=***;`: every occurrence is redacted, left to right. |
| RedactionExamples.UnlistedFieldKept | 0x00-personal_data/filtered_logger.py:30-31 | `["ssn"]` leaves `name=Bob;` unchanged. |
| RedactionExamples.ListedFieldsRedactedOthersKept | 0x00-personal_data/filtered_logger.py:30-31 | `["name", "email"]` turns `name=Bob;email=b@x.com;phone=555;` into `name=***;email=***;phone=555;`. |
| RedactionExamples.LongerFieldFirstWins | 0x00-personal_data/filtered_logger.py:30-31 | `["a=b", "a"]` turns `a=b=;x;` into `a=***;`. The match runs through `a=b`, and the key written back is `a`, the text before the first `=`. |
| RedactionExamples.ShorterFieldFirstWins | 0x00-personal_data/filtered_logger.py:30-31 | `["a", "a=b"]` turns the same message into `a=***;x;`. The match runs through `a` with the value `b=`, and `x;` is copied. |
| Formatter.Header | 0x00-personal_data/filtered_logger.py:38 | The layout `[HOLBERTON] %(name)s %(levelname)s %(asctime)-15s: ` before the message. It has no contract of its own. Its properties are stated by Formatter.HeaderHasNoEquals and Formatter.PadRight. |
| Formatter.Render | 0x00-personal_data/filtered_logger.py:46 | The record rendered with the layout, before redaction. It has no contract of its own. Its use is stated by Formatter.FormatFiltersOnlyMessage. |
| Formatter.RedactingFormatter.Format | 0x00-personal_data/filtered_logger.py:45-47 | `format`: the rendered line filtered with `***`, `;` and the stored fields. It has no contract of its own. Its properties are stated by Formatter.FormatFiltersOnlyMessage and UserRows.LoggedRowRedacted. |
| Formatter.PadRight | 0x00-personal_data/filtered_logger.py:38 | `%-15s` left-justifies: the text is kept whole as a prefix, padded with spaces up to 15 characters and never cut. |
| Formatter.PadRightAddsNoEquals | 0x00-personal_data/filtered_logger.py:38 | Padding the time stamp adds no `=`. |
| Formatter.HeaderHasNoEquals | 0x00-personal_data/filtered_logger.py:38 | The rendered header ends in a space and holds no `=` when the name, level and time stamp hold none. |
| Formatter.FormatFiltersOnlyMessage | 0x00-personal_data/filtered_logger.py:37-47 | `format(record)`, which filters the whole rendered line with `***`, `;` and the stored fields, equals the header followed by the filtered message. This holds when the header has no `=` and no field name has a space. |
| UserRows.PiiHasNoEqualsOrSpace | 0x00-personal_data/filtered_logger.py:14 | The five names of `PII_FIELDS` hold no `=` and no space, and the list is not empty, so it is its own list of alternatives. |
| UserRows.RowMessage | 0x00-personal_data/filtered_logger.py:92 | The line written for a row. It has no contract of its own. Its shape is stated by UserRows.RowMessageIsJoin, and its redaction by UserRows.RowRedacted. |
| UserRows.NotSuffixOfKey | 0x00-personal_data/filtered_logger.py:14 | No name in `PII_FIELDS` is a suffix of a key whose last letter is `p`, `n` or `t` and whose last but one is not `s`. This holds for `ip`, `last_login` and `user_agent`. |
| UserRows.RowMessageIsJoin | 0x00-personal_data/filtered_logger.py:92 | The row line is the eight `key=value;` entries in schema order, joined by single spaces. |
| UserRows.RedactsEntry | 0x00-personal_data/filtered_logger.py:30-31 | An entry followed by a space, with its key in `PII_FIELDS`, has its value masked. Its value must be non-empty and hold no `;` or newline. Any other entry is kept whole when its key holds no `=` or space, no PII name is a suffix of the key, and no `<pii field>=` occurs in its value. The scan resumes after the space. |
| UserRows.RedactsLastEntry | 0x00-personal_data/filtered_logger.py:30-31 | The same for the last entry of a line, under the same conditions. |
| UserRows.RedactsJoin | 0x00-personal_data/filtered_logger.py:30-31 | Filtering a line of entries with `PII_FIELDS` masks exactly the entries whose key is a PII field, keeps the rest, and keeps the order. |
| UserRows.MaskedEntries | 0x00-personal_data/filtered_logger.py:14 | Masking the entries of a row masks its five PII columns and keeps `ip`, `last_login` and `user_agent`. |
| UserRows.RowRedacted | 0x00-personal_data/filtered_logger.py:92 | Filtering a row's line with `PII_FIELDS` gives the line of the same row with name, email, phone, ssn and password replaced by the redaction text, and ip, last_login and user_agent unchanged. |
| UserRows.LoggedRowRedacted | 0x00-personal_data/filtered_logger.py:61 | The logger's formatter, built with `PII_FIELDS`, prints a row as the untouched header followed by `name=***; email=***; phone=***; ssn=***; password=***; ip=<ip>; last_login=<last_login>; user_agent=<user_agent>;`. |

## Left out

- `encrypt_password.py` (`hash_password`, `is_valid`) is not part of this model. It only calls into `bcrypt`, with random salts and a foreign hash function.
- `get_db`: the MySQL connection and environment-variable lookup are external I/O.
- `main`: the cursor loop, `logger.info` and closing the connection are I/O. Only the line template at line 92 is modelled.
- `get_logger`: the global logger registry is not modelled. That covers the name `user_data`, the level `INFO`, `propagate = False` and the `StreamHandler`. The logger name and level are fields of `LogRecord`.
- The rest of `logging.Formatter.format` is not modelled.
  - `%`-argument merging in `getMessage` and the clock behind `asctime` are left out. A record carries the message and the time stamp already rendered.
  - Exception and stack text appended after the message is left out.
- Conversion of database values to text is not modelled. `str(row[i])` of a date or `None` is outside the model, and row values are taken as strings.
- Field names and the separator are taken as literal text. The source does not escape regular-expression metacharacters, and a field such as `a.b` or `(x` would behave differently or raise.
- FilterDatumIdempotent: proved only for a one-character separator, a redaction text that is non-empty and holds no separator or newline, and field names without `=`. TwoCharSeparatorNotIdempotent shows that it can fail for a longer separator.
- RedactionProperties.FirstMatchIs and the lemmas built on it assume that field names contain no `=`. With such a name, the order of the field list decides which alternative wins. RedactionProperties.FirstMatchEarliest and the two field-order examples cover that case. The general redaction lemmas do not.
- UserRows.RowRedacted: requires each PII value to be non-empty and free of `;` and newline, and the other three values to hold no `<pii field>=`. Outside these conditions, the output is what `Redaction.Redact` computes, but no closed form is proved.
