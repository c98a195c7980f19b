# AirbnbBot message extraction, modelled in Dafny

This project models the message extraction in `AirbnbScraper` (main.py).
`get_all_messages` turns the accessibility label of each message div into
a record. For example, "Alice sent Hello there. Sent 05 Jan 2024, 14:30"
becomes `{sender, message, datetime, is_last_message}`.
`get_message_ids` is written to decode an id and an index from each inbox
link (as written it raises before any link is read; see "## Left out").

The project has five modules:

- `Results` (results.dfy): `Option` and `Result`. `None` and `Err` stand
  for the Python exceptions the modelled code raises. `MapAll` is what
  both loops of the scraper compute: one result per element, in order, or
  the first exception.
- `PyText` (pytext.dfy): the Python string operations the parser uses:
  - `in`, `str.index(sub, start)` and `str.rindex(sub)`;
  - `str.strip()`, with Python's whitespace set;
  - `str.replace(pat, '')`;
  - `int()` in base 10 (surrounding whitespace, a sign, `_` between
    digits) and `str()` of an integer. `int()` skips the whitespace
    `strip()` removes except the separators U+001C to U+001F, which
    `str.isspace()` counts as whitespace but `int()` rejects wherever
    they stand.
- `Strptime` (strptime.dfy): CPython's
  `datetime.strptime(s, '%d %b %Y, %H:%M')`. CPython compiles that format
  to the case-insensitive pattern `%d\s+%b\s+%Y,\s+%H:%M`, so it is more
  lenient than the format suggests:
  - one or more whitespace characters wherever the format has a space;
  - a one-digit day, hour or minute;
  - a day written as a space and a digit;
  - a month name in any case.

  It then rejects text left over after the minute, year 0, and a day past
  the end of its month.
- `MessageLabel` (label.dfy): the per-label parser `ParseLabel`. It has one
  function per field step (`Sender`, `Content`, `SentAt`) and lemmas about
  each step and about whole labels.
- `Scraper` (scraper.dfy): the two loops that build lists:
  - `FormatMessages`, the loop that fills `formatted_message_data`;
  - `DecodeLinks`, the loop that fills `message_info`.

  It also covers the outcomes of the two methods (`GetAllMessages`,
  `GetMessageIds`) and the id decoding `MessageId`.

The model follows the code as written, including two defects in
`get_all_messages`:

- **The sender step can raise.** It tests the label for "sent" (line 145)
  but looks up " sent" (line 146). A label that contains "sent" but not
  " sent", such as "sent a photo", makes `index` raise `ValueError`. The
  `except` at line 182 does not catch it, so it leaves the method. In the
  model, `Sender` and `ParseLabel` return `Err(SenderMarkerMissing)` for
  such a label, and `GetAllMessages` ends with `ValueError`.
- **The records are never returned.** Line 181 returns the undefined name
  `message_data`, so every run that gets past the loop raises `NameError`.
  `FormatMessages` models the list the loop builds. `GetAllMessages` never
  returns it: its only normal result is the `[]` of a timed-out wait.

## Model

| member | source | states |
|---|---|---|
| PyText.Index | main.py:153-154 | `s.index(sub, start)`: the least occurrence at or after `start`; `None` (the `ValueError`) exactly when there is none |
| PyText.ContainsIffIndex | main.py:145-146 | `sub in s` holds exactly when `s.index(sub)` does not raise |
| PyText.RIndex | main.py:161 | `s.rindex(sub)`: the last occurrence of `sub`; `None` (the `ValueError`) exactly when `sub` does not occur |
| PyText.Strip | main.py:147 | `strip()` leaves no whitespace at either end and removes only whitespace from the ends |
| PyText.StripUnique | main.py:155 | stripping any whitespace around an already trimmed text gives that text |
| PyText.StripTrimmed | main.py:162 | `strip()` leaves a text without whitespace at its ends unchanged |
| PyText.StripIdempotent | main.py:147 | stripping twice is stripping once |
| PyText.RemoveAll | main.py:119 | `replace(pat, '')` never lengthens the text |
| PyText.RemoveAllLength | main.py:119 | `replace(pat, '')` leaves the length unchanged exactly when `pat` does not occur |
| PyText.RemoveAllFirstOccurrence | main.py:119 | `replace(pat, '')` is one left-to-right pass: the text up to the first occurrence is kept, that occurrence is deleted, and replacement resumes after it; text without the pattern is unchanged |
| PyText.RemoveAllAtFirst | main.py:119 | the same pass, stated for an occurrence known to be the first |
| PyText.RemoveAllPrefix | main.py:119 | a leading occurrence of the pattern is deleted |
| PyText.RemoveAllAbsent | main.py:119 | text without the pattern is left as it is |
| PyText.RemoveAllFreePrefix | main.py:119 | text before any occurrence of the pattern's first character is kept, and replacement goes on after it |
| PyText.DecimalValue | main.py:119-120 | the decimal digits `str()` writes for a natural number have that number as their value |
| PyText.RemoveAllSeparators | main.py:119 | `replace` of a pattern without separators leaves a separator in the text exactly when the text had one |
| PyText.SignedValue | main.py:119-120 | after stripping, `int()` accepts exactly an optional sign followed by digit groups |
| PyText.ParseInt | main.py:119-120 | `int()` gives `None` (the `ValueError`) exactly when a U+001C to U+001F separator occurs, or the stripped text is not an optional sign followed by digit groups |
| PyText.ParseIntDigits | main.py:120 | `int()` of a run of ASCII digits is their decimal value |
| PyText.ParseIntNegativeDigits | main.py:119 | `int()` of a minus sign followed by digits is the negated value |
| PyText.ParseIntSkipsWhitespace | main.py:119-120 | `int()` skips the whitespace it knows on both sides of a trimmed, separator-free text and reads that text's sign and digit groups |
| PyText.ParseIntRejectsSeparator | main.py:119-120 | a character from U+001C to U+001F anywhere in the text makes `int()` raise |
| PyText.ParseIntDecimal | main.py:119-120 | `int(str(n)) == n` for every integer `n` (CPython's 4300-digit limit is not modelled) |
| Strptime.DaysInMonth | main.py:163 | the length of a month, with Gregorian leap years: 28 to 31 days |
| Strptime.Day | main.py:163 | `%d` reads a day from 1 to 31 from the first one or two characters, and leaves the rest |
| Strptime.Spaces | main.py:163 | `\s+` matches exactly when the text starts with whitespace; it consumes only whitespace, and all of the run |
| Strptime.Month | main.py:163 | `%b` reads a month from 1 to 12 from exactly three characters |
| Strptime.Year | main.py:163 | `%Y` reads a year from 0 to 9999 from exactly four digits |
| Strptime.Hour | main.py:163 | `%H` reads an hour from 0 to 23 from the first one or two characters, and leaves the rest |
| Strptime.Minute | main.py:163 | `%M` reads a minute from 0 to 59 from the first one or two characters, and leaves the rest |
| Strptime.Literal | main.py:163 | a literal of the format matches only that character, and consumes it |
| Strptime.Date | main.py:163 | `%d %b %Y` reads a day, month and year in range |
| Strptime.Clock | main.py:163 | `%H:%M` reads an hour and minute in range and must take the whole text, which is therefore three to five characters |
| Strptime.Parse | main.py:163 | every date and time `strptime` accepts exists in the calendar |
| Strptime.AfterDate | main.py:163 | after the date, `,\s+%H:%M` and the calendar checks accept only a date and time that exists |
| Strptime.MonthOfName | main.py:163 | `%b` reads back the English abbreviation of every month |
| Strptime.DayOfText | main.py:163 | `%d` reads back a day written with two digits, as `str(d)`, or as a space and one digit, when no digit follows |
| Strptime.HourOfText | main.py:163 | `%H` reads back an hour written with or without its leading zero, when no digit follows |
| Strptime.MinuteOfText | main.py:163 | `%M` reads back a minute written with or without its leading zero, when no digit follows |
| Strptime.SpacesOfRun | main.py:163 | `\s+` consumes exactly a whole run of whitespace |
| Strptime.MonthOfText | main.py:163 | `\s+%b\s+` reads a month name in any case between two runs of whitespace |
| Strptime.DateOfText | main.py:163 | `%d %b %Y` reads back a day written any way `%d` accepts, a month name in any case and a four-digit year, across any runs of whitespace |
| Strptime.ClockOfText | main.py:163 | `%H:%M` reads back an hour and a minute with or without leading zeros |
| Strptime.AfterDateOfClock | main.py:163 | after the date, a comma, any run of whitespace and a clock it reads give the date and time when it exists, and `ValueError` otherwise |
| Strptime.ParseOfDateAndClock | main.py:163 | once the date and clock are read, only the calendar check decides the result |
| Strptime.ParseOfText | main.py:163 | every text the pattern matches, whatever the digit widths, whitespace runs and month case, is parsed to its date and time when that exists, and raises otherwise |
| Strptime.ExampleLeapDay | main.py:163 | "29 Feb 2023, 10:00" raises, while "29 Feb 2024, 10:00" reads back as that date |
| Strptime.ExampleLenientText | main.py:163 | " 5", a tab, "jAN", two spaces, "2024,", a line break and "9:7" give 2024-01-05 09:07 |
| Strptime.ParseFormat | main.py:163 | the canonical text of a date and time is parsed back exactly when that date exists; otherwise (year 0, or a day past the month's end) `strptime` raises |
| Strptime.ClockWithTrailingText | main.py:163 | `%M` reads at most two digits, so text after them is left over |
| Strptime.ParseTrailingText | main.py:163 | any text after the minute makes `strptime` raise |
| Strptime.ParseOfBadClock | main.py:163 | a date followed by text that `%H:%M` does not read makes `strptime` raise |
| Strptime.ExampleNotADate | main.py:163-165 | "tomorrow" is not a date and time |
| MessageLabel.Sender | main.py:145-149 | the sender raises exactly when the label has "sent" but not " sent"; it is "Unknown" without "sent"; otherwise it is the stripped text before the first " sent" |
| MessageLabel.Content | main.py:152-157 | the content is the stripped text between the first "sent " and the first ". Sent" after it; it is "Content not found" when either is missing |
| MessageLabel.SentAt | main.py:159-165 | the date is "Date not found" when the label has no "Sent "; a parsed date always exists in the calendar |
| MessageLabel.SentAtLast | main.py:159-165 | the date is `strptime` of the stripped text after the last "Sent ", or "Date not found" when `strptime` raises |
| MessageLabel.ParseLabel | main.py:139-174 | a record is produced exactly when the sender step does not raise; `is_last_message` holds exactly when the attribute is "true" |
| MessageLabel.NoSentGivesFallbacks | main.py:145-157 | without "sent" the label still gives a record, with sender "Unknown" and content "Content not found" |
| MessageLabel.SenderMarkerOfComposed | main.py:146 | the first " sent" is the one after the name when the name has no " sent" |
| MessageLabel.ContentMarkerOfComposed | main.py:153 | the first "sent " is the one after a prefix without "sent" |
| MessageLabel.EndMarkerOfComposed | main.py:154 | the first ". Sent" after the content start ends the content when the content has no ". Sent" |
| MessageLabel.DateMarkerOfComposed | main.py:161 | the last "Sent " is the one before a tail without "Sent " |
| MessageLabel.SenderOfComposed | main.py:145-147 | the sender of `name + " sent " + rest` is the stripped name, whatever `rest` holds, " sent" included |
| MessageLabel.ContentOfComposed | main.py:152-155 | the content of `pre + "sent " + text + ". Sent " + tail` is the stripped text, whatever the tail holds |
| MessageLabel.DateOfComposed | main.py:160-165 | the date is read from the tail after the last ". Sent " alone |
| MessageLabel.SenderAndContentOfComposed | main.py:145-157 | sender and content of a well-formed label do not depend on its tail |
| MessageLabel.ParseComposedLabel | main.py:139-174 | the fields are independent: the sender and content come from their parts, and a malformed date changes neither |
| MessageLabel.FormatHasNoDateMarker | main.py:161-163 | the canonical date text holds no "Sent " |
| MessageLabel.SentAtFormat | main.py:159-165 | a canonical date after the last "Sent " gives that date when it exists, and "Date not found" when it does not |
| MessageLabel.ParseWellFormedLabel | main.py:139-174 | a label of the expected shape gives its stripped name, its stripped text and its date, or "Date not found" for a date that does not exist |
| MessageLabel.ParseLabelCutAtEndMarker | main.py:152-165 | a ". Sent" inside the message text cuts the content there, while the date is still read after the last "Sent " |
| MessageLabel.ExampleWellFormed | main.py:139-174 | "Alice sent Hello there. Sent 05 Jan 2024, 14:30" gives Alice, "Hello there", 2024-01-05 14:30 |
| MessageLabel.ExampleDayPastMonthEnd | main.py:159-165 | a date of 30 Feb 2024 gives "Date not found" and keeps the sender and the content |
| MessageLabel.ExampleDateNotFound | main.py:159-165 | "Bob sent Hi. Sent tomorrow" gives Bob, "Hi", "Date not found" |
| MessageLabel.ExampleTextWithEndMarker | main.py:152-165 | "Alice sent I left. Sent it already. Sent 05 Jan 2024, 14:30" gives the content "I left" and the date 2024-01-05 14:30 |
| MessageLabel.ExampleNoSender | main.py:145-165 | a label with only the capitalised "Sent" gives "Unknown", "Content not found" and its date |
| MessageLabel.ExampleSenderMarkerMissing | main.py:145-146 | "sent a photo" makes the sender step raise |
| Results.MapAll | main.py:116-121 | the loop semantics shared by both loops: one result per element, in order, or the first exception |
| Results.MapAllSucceeds | main.py:116-121 | the loop finishes exactly when no element raises |
| Results.MapAllEntries | main.py:116-121 | a finished loop holds one entry per element, at the element's position, each that element's result |
| Results.MapAllOfEntries | main.py:116-121 | conversely, when every element gives the value at its position, the loop gives exactly those values |
| Results.MapAllStep | main.py:116-121 | one turn of the loop: an element that succeeds appends its value, and one that raises ends the loop with its error |
| Results.MapAllStopsAtFailure | main.py:139-174 | once an element raises, the rest of the list changes nothing: the loop ends with that exception |
| Scraper.FormatMessages | main.py:137-174 | the loop builds the record of each div in div order; it stops at the first div whose sender step raises, holding the records before it, and that error is the loop's outcome |
| Scraper.GetAllMessages | main.py:130-185 | the method returns only `[]`, and only after a timed-out wait; with fewer than two outer divs it raises `IndexError`; otherwise it raises `ValueError` exactly when building the records fails, and `NameError` exactly when it succeeds |
| Scraper.MessageId | main.py:119 | the id decodes exactly when the `data-testid` holds no separator and the text left by one pass that removes every "inbox_list_", once stripped, is an optional sign followed by digit groups |
| Scraper.DecodeLink | main.py:118-121 | an entry holding both values, or `Err(ValueError)` when either `int()` raises |
| Scraper.DecodeLinks | main.py:116-121 | the loop computes the decoding of every link, in order, or the `ValueError` of the first link that does not decode |
| Scraper.GetMessageIds | main.py:107-128 | the decoded links, or `ValueError`, as the loop computes them; `[]` after a timed-out wait |
| Scraper.DecodeEncodeLink | main.py:116-121 | every id and index a link can carry decodes back to itself |
| Scraper.DecodeEncodedLinks | main.py:116-121 | the loop reads back, in order, every list of ids and indexes an inbox page can list |
| Scraper.MessageIdOfMarkedText | main.py:119 | the id after a leading "inbox_list_" is read back, for either sign |
| Scraper.ExampleMarkerAcrossMarker | main.py:119 | replacement is a single pass: in "inbox_linbox_list_ist_5" only the inner marker is deleted, and the "inbox_list_" it leaves behind stays |
| Scraper.ExampleSeparatorAfterId | main.py:119 | "inbox_list_5" followed by U+001F does not decode: `int()` raises |
| Scraper.MessageIdDropsInnerMarker | main.py:119 | every "inbox_list_" is removed, not only a leading one: a marker between two runs of digits joins them into one number |

## Left out

- Browser work is not modelled: WebDriver setup, `login`, navigation,
  element lookup and clicks (main.py:20-105, 109-114, 132-136). These are
  I/O through Selenium. The methods take what the wait found as a
  parameter, with `None` for a timeout.
- The randomised `time.sleep` pacing is left out. It is timing and
  randomness, with no effect on the results.
- `get_message_ids` iterates over the single element that
  `presence_of_element_located` returns (main.py:112-117). A WebElement
  defines neither `__iter__` nor `__getitem__`, so the `for` at line 117
  raises an uncaught `TypeError` on every wait that succeeds, and the
  function never returns ids. `GetMessageIds` takes the sequence of inbox
  links instead and models the per-link decoding.
- `data_item_id` (main.py:141) is read and never used.
- `print` and `logging` calls are left out (main.py:177-180 and the error
  paths), as are `save_messages_to_json` (file I/O) and `close`.
- config.py is not part of this model. It only loads environment variables.
- A missing `aria-label` is not modelled. `get_attribute` would return
  `None` and `'sent' in None` would raise `TypeError`. The label is always
  a string.
- A missing `data-testid` or `data-item-index` attribute is not modelled,
  for the same reason. It would raise `AttributeError` or `TypeError`.
- Non-ASCII decimal digits are not modelled. CPython's `\d` and `int()`
  accept every Unicode decimal digit. The model accepts only `0`-`9`.
- Non-ASCII case folding in the month match is simplified to ASCII case
  folding. CPython's `re.IGNORECASE` also lets a few non-ASCII letters
  match (for example `ſ` for `s`). `_strptime` then lower-cases the
  matched name and looks it up among the English abbreviations, where
  "ſep" is missing, so it raises `ValueError`. The outcome is the same
  as in the model, where the pattern does not match.
- PyText.ParseIntDecimal: CPython's `int()` and `str()` raise `ValueError`
  for numbers of more than 4300 digits (`sys.set_int_max_str_digits`).
  The model has no such limit, so its round trip also covers larger
  numbers, for which CPython raises.
- The month names are those of the C locale. `strptime` under another
  locale is not modelled.
- The regular-expression alternatives of `%d`, `%H` and `%M` take the
  first alternative that matches, without backtracking. The comment at the
  head of strptime.dfy explains why backtracking could not change the
  result for this format.
