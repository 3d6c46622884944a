# Auto-login for netlib.re: a verified model of its logic

`login.js` signs in to netlib.re with several accounts one after another.
For each account it drives a headless browser and decides from the page
content whether the login worked. It keeps a dated history file that is
pruned to the last 90 days, and at the end it sends a one-message summary to
a Telegram bot. This project models the script's own logic in Dafny and
proves properties of that model:

- `text.dfy` (module `Text`) covers the JavaScript string operations the script relies on.
  These are `split` by a character or a character class, `join`, `trim`,
  `includes`, and the decimal rendering of a number in a template literal.
- `accounts.dfy` (module `Accounts`) covers the `ACCOUNTS` parser. It has the two fatal
  configuration errors (exit code 1) and an inverse, `FormatAccounts`, which
  writes well-formed credentials back as an `ACCOUNTS` string.
- `log.dfy` (module `Log`) covers the history file. It has the line format that `writeLog`
  appends, the filter `rotateLog` applies, and the text it rewrites the file
  with. The file itself is a class, `LogFile`, whose text is updated in place
  by `Rotate` and `Write`.
- `login.dfy` (module `Login`) covers one login attempt (`loginWithAccount`). It has the account
  label, the success test, the result record and the log entry.
- `run.dfy` (module `Run`) covers the start-up check and `main`. That means the loop over the
  accounts, the success count, the summary text, the summary log entry and
  the Telegram message.

The browser, the clock, `Date` parsing and the Telegram transport are
parameters of the model:

- `browse(index, credential)` gives how the account's browser session went.
  Either `chromium.launch` failed (`LaunchFailed`), or the browser started
  and the steps inside the `try` ended with the page content (`Loaded`) or
  with the message of an error one of them threw (`Threw`).
- `today` is the `YYYY-MM-DD` text that log entries are written with.
- `sendTime` is the time text in the Telegram message.
- `parse` maps a line's date token to a point in time, or to `None` where
  `new Date(...)` would be invalid.
- `threshold` is the point in time 90 days before now.

A launch failure is not a per-account error. `chromium.launch`
(login.js:88-91) runs before the `try` that starts at login.js:95, so its
rejection is not caught there. It leaves `loginWithAccount`, the `await` at
login.js:146 rethrows it, and `main` rejects. `main().catch(console.error)`
(login.js:167) only prints it. The remaining accounts are never tried, and
no summary is built, sent or logged. The exit code is still 0. An error
inside the `try`, by contrast, is recorded as a failed result and the run
goes on. The model follows the code here: `Run.RunAll` stops at the first
launch failure. The design intent that one account's error never aborts the
run holds only for errors inside the `try`.

## Model

| member | source | states |
|---|---|---|
| `Text.TrimSlice` | login.js:19 | `trim` keeps a contiguous slice of the string, and everything it removes from either end is whitespace. |
| `Text.TrimEmptyIffBlank` | login.js:39 | `line.trim()` is empty exactly when every character of the line is whitespace. That is the blank-line test of the rotation filter. |
| `Text.Split` | login.js:18-19 | A split always has at least one field. |
| `Text.SplitFieldsFree` | login.js:18-19 | No field of a split contains a separator. |
| `Text.SplitJoin` | login.js:45 | Splitting a join gives the fields back when no field contains a separator. |
| `Text.JoinSplit` | login.js:37 | Joining the lines of a text by `\n` gives the text back. |
| `Text.FirstField` | login.js:40 | `s.split(c)[0]` is the prefix of `s` before the first `c`, or all of `s` when there is no `c`. |
| `Text.Trim` | login.js:19 | The result of `trim` has no whitespace at either end. |
| `Text.Join` | login.js:45 | The definition of `join` by one character. `Text.SplitJoin` and `Text.JoinSplit` prove it inverse to `split`. |
| `Text.Contains` | login.js:116 | The definition of `includes`: `sub` occurs at some position of `s`. |
| `Text.NatToString` | login.js:85 | The decimal text of a number is non-empty, all digits, and has no leading zero. |
| `Text.NatToStringValue` | login.js:85 | Reading the decimal text of `index + 1` back gives the number, so the rendering is one-to-one. |
| `Accounts.SegmentCredential` | login.js:19-21 | A segment yields a credential only when the user and the password are both non-empty. Both are trimmed. |
| `Accounts.SegmentKeepsFree` | login.js:18-21 | A credential from a segment without `,` or `;` is well-formed: it is also free of `:`. |
| `Accounts.ParseSegments` | login.js:18-21 | There are never more credentials than segments. |
| `Accounts.Collect` | login.js:18-21 | Mapping the segments and dropping the empty pairs never gives more credentials than segments. |
| `Accounts.ParseAccounts` | login.js:13-26 | An unset or empty `ACCOUNTS` is `NotConfigured`. A success holds 1 to (number of segments) credentials. |
| `Accounts.AccountsWellFormed` | login.js:13-26 | Every credential of a successful parse is non-empty, trimmed and free of `,`, `;` and `:`. |
| `Accounts.ParsedAreWellFormed` | login.js:19-21 | Every credential parsed from separator-free segments is well-formed. |
| `Accounts.ParseSegmentsAppend` | login.js:18-21 | Segments are parsed independently, and the output keeps the input order. |
| `Accounts.ParseSegmentsMember` | login.js:18-21 | A credential is in the output exactly when some segment yields it. |
| `Accounts.SegmentWithoutColon` | login.js:19-21 | A segment with no colon, including an empty one, yields nothing. |
| `Accounts.SegmentOfPair` | login.js:19-21 | `user:pass` yields the trimmed pair when neither part trims to nothing, and nothing otherwise. |
| `Accounts.SegmentIgnoresExtraFields` | login.js:19 | `user:pass:rest` yields the same as `user:pass`. Anything after a second colon is dropped. |
| `Accounts.WhitespaceOnlyIsBadFormat` | login.js:18-26 | A whitespace-only `ACCOUNTS` is a format error (exit 1). |
| `Accounts.UserWithoutPassword` | login.js:19-26 | A single colon-free segment such as `onlyuser` is a format error. |
| `Accounts.ThreePairs` | login.js:18-21 | `u1:p1,u2:p2;<spaces>u3:p3` yields the three pairs in order. Both separators work, and the leading whitespace is trimmed. |
| `Accounts.FormatThenParse` | login.js:18-26 | Parsing the `,`-joined `user:pass` text of a non-empty list of well-formed credentials gives exactly that list back. |
| `Log.Lines` | login.js:37 | A file always has at least one line, even an empty one. |
| `Log.LogLine` | login.js:58 | An entry starts with `<date>: ` and ends with `\n`. |
| `Log.DateToken` | login.js:40 | The date token is a prefix of the line and contains no `:`. |
| `Log.Retained` | login.js:38-43 | The definition of the rotation filter: a line is kept when it is not blank and its date token parses to a time at or after the threshold. |
| `Log.RetainedLines` | login.js:38-43 | Rotation never keeps more lines than it was given. `Log.RetainedMember` and `Log.RetainedPass` characterise exactly which lines it keeps. |
| `Log.LinesFree` | login.js:37 | No line of a file contains `\n`. |
| `Log.RetainedPass` | login.js:38-43 | Every kept line passes the filter: it is not blank, and its date token parses to a time at or after the threshold. |
| `Log.RetainedMember` | login.js:38-43 | A line is kept exactly when it is one of the lines and passes the filter. Blank lines and lines with an unparsable date are always dropped. |
| `Log.RetainedAppend` | login.js:38-43 | The filter treats lines independently and keeps their original order. |
| `Log.RetainedAll` | login.js:38-43 | Lines that all pass the filter are kept unchanged. |
| `Log.RetainedLater` | login.js:34-43 | Filtering with an earlier threshold and then a later one is the same as filtering with the later one. |
| `Log.Render` | login.js:45 | The rewritten text is empty exactly when no line was kept. Otherwise it ends with `\n`. |
| `Log.RotatedFile` | login.js:28-31 | A file that does not exist stays absent. Rotation never creates it. |
| `Log.RotatedLines` | login.js:37-45 | Reading the rewritten file back gives exactly the kept lines, followed by the empty text after the final `\n`. |
| `Log.RotateIdempotent` | login.js:37-45 | Rotating a rotated file with the same threshold changes nothing. |
| `Log.RotateLater` | login.js:34-45 | Rotating with an earlier threshold and then a later one is the same as rotating once with the later one. |
| `Log.EntryDate` | login.js:58 | The date token of an entry written as `<date>: <message>` is that date. |
| `Log.LogLineLines` | login.js:58 | An entry is exactly one line, followed by `\n`. |
| `Log.EntryRetained` | login.js:40-42 | An entry passes the filter exactly when its date parses to a time at or after the threshold. |
| `Log.EntrySurvivesRotation` | login.js:37-60 | An entry written after a rotation, with a date inside the window, is kept unchanged by the next rotation. |
| `Log.LogFile.Rotate` | login.js:28-50 | `rotateLog` replaces the file's text with the rotated text. A missing file stays missing. |
| `Log.LogFile.Write` | login.js:53-65 | `writeLog` appends one `<date>: <message>\n` entry and creates the file if it is missing. |
| `Login.LabelsDistinct` | login.js:85 | The labels `user{i+1}` of two accounts are equal only when the indices are. |
| `Login.AttemptResult` | login.js:93-129 | The result carries the account's label. It is a success exactly when the page loaded and contains `exclusive owner` or the user name. Its message starts with ✅ or ❌ and the label. After an error, the message ends with the error's whole text. |
| `Login.AttemptLogMessage` | login.js:116-129 | The logged message starts with the label and is a single line. Its success or failure wording comes from the same page test as the result's. An error contributes only its first line. |
| `Login.MarkerMeansSuccess` | login.js:116 | A page that contains `exclusive owner` means success, whatever the user name. |
| `Login.ErrorMeansFailure` | login.js:126-128 | A thrown error means failure, and the message is the label followed by the error. |
| `Login.LoginWithAccount` | login.js:84-135 | If the browser fails to launch, the call rejects with that error and writes nothing. Otherwise it returns the classified result and appends exactly one log entry for the attempt. |
| `Login.LogMessageMatchesResult` | login.js:116-129 | Unless an error message spans several lines, the logged message is the result's message without its ✅ or ❌ mark. |
| `Login.Label` | login.js:85 | The definition of `user${index + 1}`. `Login.LabelsDistinct` proves the labels distinct. |
| `Login.LoggedIn` | login.js:116 | The definition of the success test: the page includes `exclusive owner` or the user name. |
| `Run.Results` | login.js:141-147 | There is one result per account tried, and result `i` carries the label `user{i+1}`. |
| `Run.ResultsClassified` | login.js:142-146 | Result `i` is a success exactly when account `i`'s page loaded and passed the test for its own user name. |
| `Run.TriedFrom` | login.js:88-91 | From index `i` on, every account before the returned index launched its browser, and the account at that index, if any, did not. |
| `Run.Tried` | login.js:141-147 | `main` gets through at most as many accounts as there are. |
| `Run.Aborted` | login.js:146 | The run is cut short when fewer accounts were tried than there are. |
| `Run.AbortedIff` | login.js:88-91 | The run is cut short exactly when some account's browser fails to launch, and every account tried launched its browser. |
| `Run.AttemptEntries` | login.js:120-129 | There is one log entry per account tried, written with that account's log message. |
| `Run.SummaryHeader` | login.js:157 | The definition of the `📊 登录汇总: s/t 个账号成功` header line and the blank line after it. |
| `Run.SummaryBody` | login.js:158-160 | The definition of every message followed by `\n`, in result order. `Run.SummaryBodyAppend` and `Run.SummaryBodyRender` prove its properties. |
| `Run.Summary` | login.js:155-160 | The definition of the summary: the header, then the body. `Run.BuildSummary` is proved equal to it. |
| `Run.Configured` | login.js:68 | The definition of JavaScript truthiness of an optional string: present and non-empty. |
| `Run.WithEntriesExtends` | login.js:60 | Appending entries never changes what the file already held. |
| `Run.SuccessCount` | login.js:155 | The success count is at most the number of results. |
| `Run.Filter` | login.js:155 | `results.filter(r => r.success)` holds exactly the successful results, and its length is the success count. |
| `Run.SuccessCountAppend` | login.js:155 | The count of a concatenation is the sum of the counts. |
| `Run.AllSucceeded` | login.js:155 | The count equals the total exactly when every account succeeded. |
| `Run.NoneSucceeded` | login.js:155 | The count is zero exactly when no account succeeded. |
| `Run.BuildSummary` | login.js:155-160 | The loop builds the `s/t` header followed by every message with its `\n`. |
| `Run.SummaryBodyAppend` | login.js:157-160 | The body lists the messages in result order. |
| `Run.SummaryBodyRender` | login.js:157-160 | The body is the messages joined by `\n`, with a final `\n`. |
| `Run.SummaryListsMessages` | login.js:157-160 | When no message spans several lines, the lines of the body are exactly the messages in order, then an empty one. |
| `Run.SummaryLogMessage` | login.js:163 | The summary log entry is a single line. |
| `Run.Notification` | login.js:67-72 | A message is produced exactly when both the token and the chat id are set and non-empty, and it ends with the summary. |
| `Run.RunAll` | login.js:137-165 | `main` rotates the log and then tries the accounts in order, collecting one result and one log entry each. If a browser fails to launch, it stops at that account: nothing is sent, and the log is the rotated file plus the entries so far. Otherwise it has one result per account, sends the notification for the summary, and logs the summary entry last. |
| `Run.Script` | login.js:13-26 | A configuration error exits with code 1 with no attempt, no message and the log untouched. Otherwise the script runs `main` on the parsed accounts and exits with 0, also when `main` rejects after a launch failure (login.js:167). A run that completes has at least one result. |
| `Run.OneSuccessOneError` | login.js:142-160 | If the first of two accounts succeeds and the second throws inside the `try`, the run still completes, and the summary reads `1/2` followed by one ✅ line and one ❌ error line. |
| `Run.SecondLaunchFails` | login.js:88-91 | If the second of three browsers fails to launch, the run is cut short with only the first account's result. |

## Left out

- The browser session is left out: launching, navigating, clicking, filling the form, waiting and closing (login.js:88-113, 130-133). It is a foreign library, so its outcome is the `browse` parameter: a launch failure, or how the steps inside the `try` ended. An error thrown by `page.close()` or `browser.close()` in the `finally` block is not modelled. Such an error would reject the call like a launch failure, after the log entry was written.
- The Telegram POST through axios is left out, along with its 10-second timeout and its console messages (login.js:73-81). `Notification` only gives the text that would be posted.
- Filesystem failures are left out. The `catch` blocks of `rotateLog` and `writeLog` (login.js:47-49, 62-64) only print to the console. In the model, reading and writing always succeed.
- The clock is left out: `new Date()`, the UTC+8 shift, `toISOString`, `setDate` and `new Date(dateStr)` (login.js:34-35, 41, 55-57, 69-71). Each becomes a parameter (`today`, `sendTime`, `threshold`, `parse`). `Run.RunAll` writes every entry of a run with the same `today`, so a run that crosses midnight is not modelled.
- Console output and the fixed delays are left out. These are `waitForTimeout`, the 3-second pause between accounts, and `main().catch(console.error)` (login.js:100-113, 149-152, 167).
- The date comparison is not done per calendar day. The code compares `Date` values: the parsed date at UTC midnight against the moment 90 days before now. The model follows the code with an abstract point in time and does not round to days.
- A multi-line error message is not split. The result keeps the whole `e.message` (login.js:128), so that result's line in the summary spans several lines. `Run.SummaryListsMessages` therefore assumes single-line messages.
