# Lviv power-schedule bot: schedule extraction and message rendering

This project is a Dafny model of the two parts of the Lviv power-outage Telegram
bot that hold real logic.

- **Schedule extraction** (`utils/data-fetch.util.ts`).
  - `getLvivPowerData` takes the decoded Lvivoblenergo API response and finds
    the `menuItems` of the first `hydra:member`.
  - It keeps the last item named `today` (in any letter case) with non-empty
    `rawHtml`, and likewise for `tomorrow`.
  - `parseHtmlContent` turns each kept HTML fragment into a `DayData`. The
    publication time comes from the bold texts that carry "станом на". The
    group → status dictionary comes from the paragraphs whose trimmed text
    matches `/^Група\s+(\d+\.\d+)\.?\s*(.*)/i`.
- **Message rendering** (`utils/schedule-message-builder.util.ts`).
  - `buildScheduleMessage` writes the reply for one group and one day: a
    heading, the group, the status with a green or red indicator (or the
    no-data text), an optional publication line, and the time of the check.

## Modules

- `wrappers.dfy` (`Wrappers`): `Option`.
- `js_string.dfy` (`JsString`): the JavaScript string operations the code
  calls, and two helpers.
  - The `\s` class, `trim` and `includes`.
  - ASCII `toLowerCase`.
  - `IndexOf`: the leftmost search that the non-global `replace` at
    `utils/data-fetch.util.ts:94` performs for its literal label.
  - Greedy regex runs, written as maximal runs of a character class.
  - `SplitLines` and `JoinLines`, splitting and joining on `"\n"`. The program
    calls neither; they are helpers for reading the reply as its lines.
- `group_line.dfy` (`GroupLine`): a hand-written matcher for the group-line
  regex.
  - `MatchGroupLine` is the matcher.
  - `Captures` is a declarative reference for it: "the regex matches with these
    two captures".
  - Lemmas prove the two agree in both directions.
  - The JavaScript details are kept:
    - `\d` is ASCII only.
    - `\s` is the ECMAScript white-space and line-terminator class.
    - `.` stops at a line terminator.
    - `\d+` is greedy.
    - The `i` flag lets each letter of the label be lower- or upper-case.
- `data_fetch.dfy` (`DataFetch`): the types `GroupSchedule`, `DayData` and
  `PowerDataResult`, plus the two operations.
  - `ParseHtmlContent` and `GetLvivPowerData` are methods whose loops fill the
    dictionary and the result object the way the source does.
  - Each is proved against a specification function: `ScheduleOf`,
    `UpdateTimeOf`, and `DayFrom`/`LastQualifying`.
  - Lemmas state what those functions guarantee.
- `schedule_message_builder.dfy` (`ScheduleMessageBuilder`):
  `BuildScheduleMessage` and the layout of the message.
- `scenarios.dfy` (`Scenarios`): extraction and rendering together, plus a
  worked example page.

The HTML parser is a parameter.

- `getLvivPowerData` receives `load: string -> Fragment`, standing for
  `cheerio.load`.
- A `Fragment` holds the texts of the `<p>` elements and of the `<p> <b>`
  elements, in document order.

The clock is injected.

- `formattedDate` and `checkTime` are parameters of `BuildScheduleMessage`.
- The source computes them at lines 28 and 35 of
  `utils/schedule-message-builder.util.ts`.

In `utils/schedule-message-builder.util.ts` the Cyrillic and emoji literals
appear mis-encoded: UTF-8 bytes read back as Mac Roman. The model uses the
intended text:

- "Електроенергія є";
- 🟢 and 🔴;
- 🕒 "Дані:";
- 📅 "Графік:";
- "Сьогодні" and "Завтра";
- 👥 "Група:";
- ♻️ "Перевірено:".

`UI_TEXT.noData` lives in a file that is not part of this model. It is the
constant `NO_DATA`, whose value is left unspecified.

Every function in the model is a mathematical function. The message therefore
depends only on `group`, `day`, `dayData` and the two injected strings: equal
inputs give equal messages.

## Model

| member | source | states |
|---|---|---|
| JsString.Trim | utils/data-fetch.util.ts:99 | `trim` drops a maximal all-`\s` prefix and suffix: the result is a slice of the input, starts and ends with a non-space (or is empty), and is no longer than the input |
| JsString.TrimIdempotent | utils/data-fetch.util.ts:99-105 | trimming an already trimmed text changes nothing |
| JsString.TrimKeepsNoLineTerminator | utils/data-fetch.util.ts:105 | trimming a text without line terminators gives a text without line terminators |
| JsString.IndexOf | utils/data-fetch.util.ts:94 | the position found is an occurrence of the pattern, and no occurrence lies before it; when there is none, the pattern occurs nowhere |
| JsString.Contains | utils/schedule-message-builder.util.ts:26 | `includes` holds exactly when the pattern occurs at some position |
| JsString.AsciiLower | utils/data-fetch.util.ts:63 | lower-casing keeps the length and leaves no upper-case ASCII letter |
| JsString.AsciiLowerEquals | utils/data-fetch.util.ts:63-67 | a name lower-cases to a lower-case word exactly when it has the word's length and each character is that letter in lower or upper case |
| GroupLine.MatchGroupLine | utils/data-fetch.util.ts:101 | a match returns the captures of the regex (`Captures`); the group capture is digits, a dot, digits, and the status capture has no line terminator |
| GroupLine.MatchGroupLineIff | utils/data-fetch.util.ts:101-103 | the matcher matches exactly when the text starts with the label in either case, at least one `\s`, then digits "." digits |
| GroupLine.MatchGroupLineExact | utils/data-fetch.util.ts:101-104 | the matcher returns `(g, s)` exactly when `g` and `s` are the captures of the regex on the text |
| GroupLine.CapturesUnique | utils/data-fetch.util.ts:101 | the regex's greedy captures are determined by the text: two capture pairs of the same text are equal |
| DataFetch.EntryIsGroupLine | utils/data-fetch.util.ts:99-105 | a paragraph contributes an entry exactly when its trimmed text is a group line; the key is digits "." digits and the status is trimmed with no line terminator |
| DataFetch.ScheduleWellFormed | utils/data-fetch.util.ts:98-107 | every key of the dictionary is a `\d+\.\d+` capture and every status is trimmed and on one line |
| DataFetch.ScheduleKeys | utils/data-fetch.util.ts:98-107 | a group is a key exactly when some paragraph is a group line for it |
| DataFetch.ScheduleLastWins | utils/data-fetch.util.ts:98-107 | when several paragraphs name a group, the status of the last one in document order is the one stored |
| DataFetch.ScheduleIgnoresNonGroupLine | utils/data-fetch.util.ts:99-104 | removing a paragraph that is not a group line leaves the dictionary unchanged |
| DataFetch.ScheduleStep | utils/data-fetch.util.ts:98-107 | one more paragraph of the loop: a group line writes its group and status over the dictionary so far, any other paragraph leaves it unchanged |
| DataFetch.MarkedText | utils/data-fetch.util.ts:89-93 | the concatenated marked bold text is empty exactly when no bold text contains "станом на" |
| DataFetch.StripAsOfLabel | utils/data-fetch.util.ts:94 | `replace` removes the leftmost "Інформація станом на" and the maximal `\s` run after it and keeps everything else; without an occurrence the text is unchanged |
| DataFetch.UpdateTimeOf | utils/data-fetch.util.ts:85-95 | without a marked bold text the update time is exactly "Час не вказано"; otherwise it is the marked texts, label stripped, trimmed |
| DataFetch.ParseHtmlContent | utils/data-fetch.util.ts:82-110 | the paragraph loop builds exactly `ScheduleOf(paragraphs)`, the update time is `UpdateTimeOf(bolds)`, and the dictionary is well formed |
| DataFetch.MenuItemsOf | utils/data-fetch.util.ts:54-55 | the menu items are found exactly when `hydra:member` is present, non-empty, and its first member's `menuItems` is an array |
| DataFetch.LastQualifying | utils/data-fetch.util.ts:62-69 | the index of the last item whose lower-cased name is the word and whose `rawHtml` is non-empty; none exactly when no item qualifies |
| DataFetch.DayFromStep | utils/data-fetch.util.ts:62-70 | one more loop step: a qualifying item takes the day's slot and overwrites it; any other item leaves it as it was |
| DataFetch.GetLvivPowerData | utils/data-fetch.util.ts:54-72 | null when `menuItems` is missing or not an array; otherwise each slot holds the parsed day of the last qualifying item; the result is null exactly when no item qualifies for either day |
| ScheduleMessageBuilder.BuildScheduleMessage | utils/schedule-message-builder.util.ts:41-47 | the message begins with the heading line and a newline and ends with the check line, with no newline after it |
| ScheduleMessageBuilder.StatusTextNoData | utils/schedule-message-builder.util.ts:23-25 | no day data, a missing group or an empty status gives exactly the no-data text |
| ScheduleMessageBuilder.StatusTextIndicator | utils/schedule-message-builder.util.ts:24-26 | a non-empty status appears verbatim after an indicator and a space; the indicator is 🟢 exactly when the status contains "Електроенергія є" and 🔴 exactly when it does not |
| ScheduleMessageBuilder.MessageIsJoinedLines | utils/schedule-message-builder.util.ts:37-47 | the message is its lines joined by newlines: heading, group line, blank, status, blank, the publication line when `updateTime` is non-empty, then the check line |
| ScheduleMessageBuilder.MessageLines | utils/schedule-message-builder.util.ts:37-47 | when the inserted texts hold no newline, splitting the message at newlines gives exactly those lines, in that order |
| Scenarios.SentinelIsPublished | utils/schedule-message-builder.util.ts:37-39 | a page without a marked bold text still produces a publication line, and it shows "Час не вказано" |
| Scenarios.ExtractedStatusIsOneLine | utils/schedule-message-builder.util.ts:24-26 | a status the extractor stored gives a status line without a newline |
| Scenarios.ExampleGroupLine | utils/data-fetch.util.ts:99-105 | the paragraph "Група 3.2. Електроенергія є" contributes group "3.2" with status "Електроенергія є" |
| Scenarios.ExampleUpdateTime | utils/data-fetch.util.ts:89-94 | the bold text "Інформація станом на 08:00" gives the update time "08:00" |
| Scenarios.ExamplePage | utils/data-fetch.util.ts:82-110 | the example page `<p><b>Інформація станом на 08:00</b></p><p>Група 3.2. Електроенергія є</p>`, flattened to both its paragraphs and its one bold text, parses to update time "08:00" and the dictionary {"3.2": "Електроенергія є"}; the paragraph holding the bold text is no group line |
| Scenarios.ExampleReplies | utils/schedule-message-builder.util.ts:18-48 | for group "3.2" of the example page (both paragraphs) the reply's lines are the heading, the group line, a blank line, "🟢 Електроенергія є", a blank line, the "08:00" publication line and the check line |
| Scenarios.ExampleAbsentGroup | utils/schedule-message-builder.util.ts:23-25 | for group "1.1", absent from the example page (both paragraphs), the status line is the no-data text |

## Left out

- The axios GET, with its URL from the environment, timeout and headers (utils/data-fetch.util.ts:32-39, 49-52), is network I/O. The model starts from the decoded response.
- The `catch` that turns any failure into null (utils/data-fetch.util.ts:73-76) covers the request and any exception thrown by the code.
- GetLvivPowerData: does not model the exceptions caught at lines 73-76. A menu item that is `null`, or an item whose `name` is not a string, throws, and the source returns null. In the model, names are strings and items are records.
- GetLvivPowerData: a `null` first `hydra:member` entry throws nothing. `?.[0]?.menuItems` gives `undefined`, and the early return at utils/data-fetch.util.ts:55-57 gives null. The model has no null member, so it cannot express that input; `MenuItemsOf` covers the missing-list, empty-list and non-array cases of that same early return.
- GetLvivPowerData: `load` stands for `cheerio.load` and its `.text()` flattening (utils/data-fetch.util.ts:83, 89-91, 98-99). HTML parsing is a foreign library, so a fragment is given as paragraph texts and bold-in-paragraph texts.
- AsciiLower: lower-cases ASCII letters only, not full Unicode `toLowerCase`. No non-ASCII character lower-cases to a letter of "today" or "tomorrow", so which items qualify is unaffected.
- The console warnings and errors (utils/data-fetch.util.ts:56, 74) are logging.
- `Intl.DateTimeFormat`, the Europe/Kyiv time zone, `new Date()` and the day shift for "tomorrow" (utils/schedule-message-builder.util.ts:4-16, 28-35) read the clock and the locale. `formattedDate` and `checkTime` are parameters.
- `UI_TEXT` (consts/ui-text.const.ts) is not part of this model. `NO_DATA` is an unspecified constant.
- index.ts is not modelled. Its Telegram routing, environment loading and signal handling are glue. Its call to `getLvivPowerData` passes an argument to a zero-argument function and hands a `PowerDataResult` to a parameter typed `DayData`, so the two operations are modelled separately and not composed.
- consts/keyboard-markup.const.ts builds Telegram keyboards and is not modelled.
- Strings are modelled as sequences of Unicode code points (Dafny `string`). JavaScript strings are sequences of UTF-16 code units. The model cannot hold a lone surrogate, such as one from a `\ud800` JSON escape. Lengths and indices in the contracts count code points. For example, `StatusTextIndicator`'s `|text| == |status| + 2` and `text[1] == ' '` hold per code point, while in the program `statusText.length` is `status.length + 3`. `trim`, the two regular expressions, `includes` and concatenation give the same strings in both views.
- `GroupSchedule` is a dictionary from strings. The source's plain-object lookup `schedule?.[group]` (utils/schedule-message-builder.util.ts:23) also finds inherited properties. For a group such as "constructor" or "toString" it returns a function. That is truthy, so `status.includes` at line 26 throws a TypeError, and index.ts:51-60 turns it into `UI_TEXT.error`. The model looks up only keys the parser stored and gives `NO_DATA` instead. The callback pattern `[\d.]+` at index.ts:37 never produces such a group.
- `ApiResponse` cannot express two inputs the source accepts. A `hydra:member` that is not an array cannot be written: a string gives `undefined` at utils/data-fetch.util.ts:54 and the early return at lines 55-57 gives null, while an object keyed "0" is indexed like an array. A `null` decoded body cannot be written either: `null["hydra:member"]` throws, and the catch at lines 73-76 gives null. The model's types exclude these inputs.
