# GitLab status monitor, modelled in Dafny

`gitlab_status_monitor.py` runs once, typically from a scheduler. Each run:

1. Reads the fixed `[EMAIL]` settings.
2. Reads the service statuses saved by the previous run from `/tmp/gitlab_service_status.cache`.
3. Reads the time of the last alert from `/tmp/gitlab_last_email_sent.cache`.
4. Parses the output of `gitlab-ctl status`. While `USE_SAMPLE_OUTPUT` is set, it parses the built-in sample instead.
5. Emails an alert listing the failed services, about once an hour at most. The record keeps whole seconds only, so the gap between two alerts can be up to a second short of an hour.
6. Saves the new statuses for the next run.

This project models that run and the pieces it is made of:

- `text.dfy` (`Text`) models the parts of Python's `str` the script relies on, over `seq<char>`:
  - `strip()` and `strip(chars)`, with Python's `isspace` set;
  - `split(sep)` and `split(sep, 1)`;
  - `join`;
  - `splitlines()`, with Python's full set of line boundaries and `"\r\n"` as one boundary;
  - iterating over a file in text mode, with universal newlines.
- `dicts.dfy` (`Dicts`) models Python's insertion-ordered `dict`. Assigning to a key that is already present keeps that key's position.
- `status_parser.dfy` (`StatusParser`) models the parser of lines 73-83. The loop itself is `ParseStatus`, a method proved equal to the function `Parse`. `Parse` classifies each line as:
  - blank;
  - malformed, meaning it raises `IndexError`;
  - a service line with its name and its status.
- `snapshot.dfy` (`Snapshot`) models the status file:
  - the writer of lines 124-126, `WriteStatus`, a method;
  - the reader of lines 43-48, `LoadStatus`, a method;
  - the proof that reading back what was written gives the same dict.
- `notifier.dfy` (`Notifier`) models the alert:
  - the one-hour throttle of lines 86-89;
  - the body of lines 95-98;
  - the message of lines 100-110.
- `config.dfy` (`Config`) models the settings of lines 17-23.
- `monitor.dfy` (`StatusMonitor`) models a whole run:
  - The class `Monitor` holds the two cache files as fields.
  - Its method `Run` is one execution of lines 39-126 against them.
  - Scenario methods chain two runs.
- `sample.dfy` (`Sample`) models `SAMPLE_OUTPUT` (lines 31-37) and proves what the parser makes of it.

A malformed status line is a non-blank line without ':'.

- **What the code does:** line 79 indexes the second `:`-field unconditionally, so such a line raises `IndexError`. That ends the run before any email and before the status file is rewritten.
- **A design alternative:** skipping such a line would let the run go on. The model follows the code: `Parse` returns `Err(line)`, and `Run` reports `Crashed` and leaves both files as they were.

Terms:

- **Time** is an integer count of microseconds, the resolution of `datetime.now()`.
- **The recorded email time** has whole seconds only, because it was written with `"%Y-%m-%d %H:%M:%S"`.
- **Injected values.** Calendar conversion is given to `Run` as parameters:
  - `strptime: string -> Option<int>` stands for `datetime.strptime`. It returns `None` where Python raises `ValueError`.
  - `stamp` is the `strftime` text of line 95.

## Model

| member | source | states |
|---|---|---|
| `StatusParser.Classify` | gitlab_status_monitor.py:76-80 | A line is skipped exactly when it is whitespace only. A raising line is reported by its stripped text, which is non-empty and has no ':'. A service line gets "running" or "failed". ClassifyFacts adds the rest. |
| `StatusParser.Parse` | gitlab_status_monitor.py:73-83 | A failed parse reports a non-empty line without ':', the line on which line 79 raises. |
| `StatusParser.ParseErrorMalformed` | gitlab_status_monitor.py:79 | The error of a failed parse is the text of a malformed line. |
| `StatusParser.ParseStatus` | gitlab_status_monitor.py:73-83 | The loop returns exactly `Parse(output)`: the dict and failed list after every line, or the stripped text of the first line that raises. |
| `StatusParser.ClassifyFacts` | gitlab_status_monitor.py:76-80 | A line is skipped exactly when it is all whitespace. It raises exactly when its stripped text is non-empty and has no ':'. Otherwise its status is "running" exactly when the stripped line starts with `run:`, and "failed" if not. The name is stripped, has no ':', and uses only characters of the line. |
| `StatusParser.NameIsSecondField` | gitlab_status_monitor.py:79 | When the stripped line is `tag:field…` and field has no ':', the name is `field` stripped, whatever comes after the second ':'. |
| `StatusParser.ParseSucceedsIff` | gitlab_status_monitor.py:75-79 | The parse succeeds if and only if no line is malformed. |
| `StatusParser.ParseFailsAtFirstMalformed` | gitlab_status_monitor.py:75-79 | When lines fail, the error is the first malformed line; later lines are never looked at. |
| `StatusParser.ErrorPersists` | gitlab_status_monitor.py:79 | Once a prefix of the lines raises, any continuation raises the same error. |
| `StatusParser.ErrorStops` | gitlab_status_monitor.py:79 | A raise at some line fixes the result of the whole output. |
| `StatusParser.BlankLineSkipped` | gitlab_status_monitor.py:77-78 | Inserting a blank line anywhere changes neither the dict, nor the failed list, nor the error. |
| `StatusParser.ParsedDict` | gitlab_status_monitor.py:73-83 | After a successful parse, `new_status` is the dict built by assigning every service line's (name, status) in input order. `failed_services` is the names of the failed lines, in input order. |
| `StatusParser.FailedInInputOrder` | gitlab_status_monitor.py:82-83 | `failed_services` has one entry per failed line, repeats included, in input order. |
| `StatusParser.ParsedKeys` | gitlab_status_monitor.py:81 | A name is a key of `new_status` if and only if some service line names it. |
| `StatusParser.ParsedLastLineWins` | gitlab_status_monitor.py:81 | A service named on several lines gets the status of the last of them. |
| `StatusParser.ParsedKeyOrder` | gitlab_status_monitor.py:81 | The keys of `new_status` are ordered by the first line naming each. |
| `StatusParser.OutputKinds` | gitlab_status_monitor.py:75-80 | Every service line of any output yields a name without ':', line boundary or surrounding whitespace, and a status of "running" or "failed". |
| `StatusParser.ParsedShape` | gitlab_status_monitor.py:73-83 | After a successful parse: the dict is valid, every failed service is a key, and every key is a well-formed name mapped to "running" or "failed". Every key mapped to "failed" is in the failed list. |
| `Snapshot.Serialize` | gitlab_status_monitor.py:124-126 | The saved text is empty exactly when the dict is, and otherwise ends with "\n". RoundTrip proves it reads back to the dict. |
| `Snapshot.WriteStep` | gitlab_status_monitor.py:126 | One pass of the writer loop appends the next entry line and its newline. |
| `Snapshot.LoadLine` | gitlab_status_monitor.py:45-48 | A line without ':' leaves the dict as it was. A line with ':' makes one assignment: the stripped line is the key, ':', then the value, and the key has no ':'. |
| `Snapshot.LoadLineKeeps` | gitlab_status_monitor.py:46-48 | One line keeps the dict valid and its keys free of ':'. |
| `Snapshot.PutKeysAvoid` | gitlab_status_monitor.py:48 | Assigning a key without a character keeps every key free of it. |
| `Snapshot.Load` | gitlab_status_monitor.py:43-48 | The loaded `previous_status` is a valid dict whose keys have no ':'. |
| `Snapshot.WriteStatus` | gitlab_status_monitor.py:124-126 | The text written is `Serialize(d)`: one `name:status` line per entry, each ended by "\n", in insertion order. |
| `Snapshot.LoadStatus` | gitlab_status_monitor.py:43-48 | The loader loop yields `Load(text)`. Every line holding ':' is stripped and split at its first ':' into an assignment, in file order. Other lines are ignored. |
| `Snapshot.LoadEntryLine` | gitlab_status_monitor.py:46-48 | Reading the written line of an entry assigns exactly that entry. This holds when the name has no ':', no newline and no leading whitespace, and the status has no newline and no trailing whitespace. |
| `Snapshot.LoadEntryLines` | gitlab_status_monitor.py:43-48 | Reading the first n written lines gives the first n entries, in order. |
| `Snapshot.RoundTrip` | gitlab_status_monitor.py:124-126 | Loading what the writer wrote gives back the same dict: same keys, same order, same values. |
| `Snapshot.EntryLinesOneLine` | gitlab_status_monitor.py:126 | No written entry line holds a newline, so each entry is one line of the file. |
| `Notifier.ThrottleWindow` | gitlab_status_monitor.py:88 | With failures and a recorded time, an email is due if and only if strictly more than one hour has passed since the recorded second. |
| `Notifier.ThrottleBoundary` | gitlab_status_monitor.py:88 | Exactly one hour after the recorded second, no email; one microsecond later, an email. |
| `Notifier.NoFailureNoEmail` | gitlab_status_monitor.py:87 | With no failed service no email is due, whatever the record. |
| `Notifier.FirstFailureEmails` | gitlab_status_monitor.py:88 | With failures and no usable record, an email is always due. |
| `Notifier.DueStaysDue` | gitlab_status_monitor.py:86-89 | Once an email is due, it stays due as time goes on. |
| `Notifier.ThrottleFromTruncatedSecond` | gitlab_status_monitor.py:88 | Any run at most one hour minus one second after an email, whose record kept only the truncated second, sends nothing. |
| `Notifier.TruncationShortensWindow` | gitlab_status_monitor.py:95 | The truncated record lets an email be due again less than one hour after the previous one (sent 0.9 s into a second). |
| `Notifier.EmailDue` | gitlab_status_monitor.py:86-89 | An email is due only when some service failed, and never while the time is at most one hour past the recorded second. ThrottleWindow, ThrottleBoundary, NoFailureNoEmail, FirstFailureEmails and DueStaysDue prove the rest of its behaviour. |
| `Notifier.Body` | gitlab_status_monitor.py:96-98 | The body opens with the stamped header and closes with "Please check the GitLab server.". BodyLines gives its lines. |
| `Notifier.BodyLines` | gitlab_status_monitor.py:96-98 | When there is at least one failed service and neither the stamp nor any name holds "\n", the body's lines are, in order: the header with the time stamp, a blank line, one `- name` per failed service, a blank line, and the closing sentence. Both conditions hold wherever a body is built: line 93 composes only when lines 86-89 set `send_email`, which needs a failed service, and parsed names hold no line boundary. |
| `Notifier.Compose` | gitlab_status_monitor.py:95-110 | The message keeps the given sender, subject, To and Cc lists. The envelope recipients are `EMAIL_TO` followed by `EMAIL_CC`. The body opens with the header line. When there are failed services and neither the stamp nor any name holds "\n", the body's lines are the header, a blank line, one `- name` per service in order, a blank line, and the closing sentence. |
| `Config.RecipientList` | gitlab_status_monitor.py:17-18 | Every entry of a parsed recipient list is non-empty, stripped and free of ','. |
| `Config.NonBlankEntries` | gitlab_status_monitor.py:17 | The comprehension's `if e.strip()` keeps only non-empty stripped entries. |
| `Config.NonBlankAvoids` | gitlab_status_monitor.py:17 | A character absent from every split part is absent from every entry. |
| `Config.NonBlankOfNonBlank` | gitlab_status_monitor.py:17 | When no part is blank, the list is the parts stripped, in order. |
| `Config.EmptyRecipientList` | gitlab_status_monitor.py:17-18 | `"[]"` reads as the empty recipient list. |
| `Config.NonBlankSnoc` | gitlab_status_monitor.py:17 | One more part adds its stripped text at the end, unless that is blank. |
| `Config.NonBlankCons` | gitlab_status_monitor.py:17 | The first part contributes its stripped text, unless that is blank. |
| `Config.RecipientListTrailingComma` | gitlab_status_monitor.py:17-18 | A trailing ',' adds only a blank part, which is dropped: `"[a,b,]"` reads like `"[a,b]"`. |
| `Config.RecipientListOfWritten` | gitlab_status_monitor.py:17-18 | Writing entries as `[a,b,…]` and parsing the value gives the entries stripped, in order. This holds when no entry is blank or holds ',' or a bracket. |
| `Config.Subject` | gitlab_status_monitor.py:23 | The subject neither starts nor ends with a bracket. It is a contiguous slice of the raw value, and only brackets are cut before and after it. It equals the raw value when that had no surrounding brackets. |
| `Config.LoadSettings` | gitlab_status_monitor.py:17-23 | Every To and Cc entry is non-empty, stripped and free of ','. The sender is a slice of `EMAIL_FROM` with only whitespace cut around it, and is stripped. The subject is a slice of `EMAIL_SUBJECT` with only brackets cut around it, and neither starts nor ends with a bracket. |
| `StatusMonitor.LastSent` | gitlab_status_monitor.py:50-57 | No file gives no record. Otherwise the record is the parse of the file's stripped text, or no record where parsing fails. A file without surrounding whitespace is parsed as it is. |
| `StatusMonitor.LastSentOfStamp` | gitlab_status_monitor.py:55 | Whitespace around a recorded stamp does not change the time read back: the record is the parse of the stamp itself. |
| `StatusMonitor.Monitor.Run` | gitlab_status_monitor.py:39-126 | On a raising line the run reports the line and changes neither file. Otherwise: previous is the dict loaded from the old status file; `new_status` and `failed_services` are the parse. The status file afterwards holds exactly the new dict, and reloads to it. An email is composed if and only if it is due. The last-email file changes, to the stamp, if and only if that email was delivered; the next run then reads the record as the parse of the stripped stamp, and otherwise reads the same record as before. |
| `StatusMonitor.SavedStatusReloads` | gitlab_status_monitor.py:124-126 | Every dict a parse yields is storable, and the next run reads it back unchanged. |
| `StatusMonitor.ParsedValid` | gitlab_status_monitor.py:73-81 | A successful parse yields a valid dict: no repeated key, and the listed keys are exactly the mapped ones. |
| `StatusMonitor.ServiceNameStorable` | gitlab_status_monitor.py:126 | A parsed service name is a name the status file can hold. |
| `StatusMonitor.ThrottledRerun` | gitlab_status_monitor.py:86-114 | Two runs with failed services, starting without cache files: the first emails and records its stamp. The second, within the hour, is throttled and sees the first run's status as its previous status. |
| `StatusMonitor.RetryAfterFailedDelivery` | gitlab_status_monitor.py:106-116 | A delivery that raises records nothing, so the next run emails again. |
| `StatusMonitor.AllRunningNoEmail` | gitlab_status_monitor.py:86-89 | An output without failed services never composes or sends an email, whatever the files hold. |
| `Sample.SampleStripped` | gitlab_status_monitor.py:62 | `SAMPLE_OUTPUT.strip()` is the five sample lines joined by "\n". |
| `Sample.SampleSplit` | gitlab_status_monitor.py:31-37 | `splitlines()` of the stripped sample gives exactly its five lines. |
| `Sample.SampleKinds` | gitlab_status_monitor.py:32-36 | The sample lines record, in order: nginx, postgresql and redis as running; sidekiq as failed; puma as running. |
| `Sample.SampleParse` | gitlab_status_monitor.py:31-37 | Parsing the sample yields the five services in that order and the failed list `["sidekiq"]`. |
| `Sample.SampleLineFacts` | gitlab_status_monitor.py:32-36 | A sample line with a lower-case name and digit-only process ids records the name with its tag's status, and holds no line boundary. |
| `Sample.StatusLine` | gitlab_status_monitor.py:76-80 | A line `tag: name: tail` whose name has no ':' records the stripped name, as "running" for the tag `run` and as "failed" for `failed`, whatever the tail. |
| `Sample.StrippedStatusLine` | gitlab_status_monitor.py:76 | Stripping such a line keeps everything up to the ':' after the name. |
| `Text.Strip` | gitlab_status_monitor.py:76 | The result is stripped. It is a contiguous slice of the input, and only whitespace is cut before and after it. It is empty exactly when the input is whitespace only. A stripped input is unchanged. |
| `Text.StripChars` | gitlab_status_monitor.py:23 | `strip(chars)`: the result neither starts nor ends with one of the chars. It is a contiguous slice of the input, and only those chars are cut around it. It is empty exactly when the input is made of them. |
| `Text.UnpaddedTrims` | gitlab_status_monitor.py:76 | Trimming both ends leaves a slice of the input with only the trimmed characters cut around it. |
| `Text.StripPadded` | gitlab_status_monitor.py:55 | Stripping a non-empty stripped text padded with whitespace on both sides gives the text. |
| `Text.StripKeepsHead` | gitlab_status_monitor.py:76 | Stripping keeps a head that starts and ends outside the stripped set, and cuts only from the tail after it. |
| `Text.Split` | gitlab_status_monitor.py:79 | There is at least one field, and no field holds the separator. There is exactly one field when the input holds no separator. |
| `Text.JoinSplit` | gitlab_status_monitor.py:79 | Joining the fields with the separator gives back the input. |
| `Text.JoinAppend` | gitlab_status_monitor.py:97 | `sep.join` of two non-empty lists is the two joins with one separator between them. |
| `Text.JoinCons` | gitlab_status_monitor.py:97 | A part joined in front of a non-empty list is followed by exactly one separator. |
| `Text.SplitJoin` | gitlab_status_monitor.py:17 | Splitting a join of separator-free parts gives back the parts. |
| `Text.SplitOnce` | gitlab_status_monitor.py:47 | `split(":", 1)` cuts the line at its first ':': the line is the first part, ':', then the second part. |
| `Text.Lines` | gitlab_status_monitor.py:75 | No line holds a boundary character. |
| `Text.LinesRebuild` | gitlab_status_monitor.py:75 | For text whose only line boundary is "\n", joining the lines with "\n" gives back the text, less one final "\n". |
| `Text.LinesTerminated` | gitlab_status_monitor.py:45 | Reading a file written as newline-terminated lines yields those lines. |
| `Dicts.Dict.Put` | gitlab_status_monitor.py:81 | Assignment maps k to v. The keys are unchanged when k is present, and are the old keys followed by k when it is new. |
| `Dicts.BuildLastWins` | gitlab_status_monitor.py:48 | After assigning pairs in order, a key maps to the value of its last pair. |
| `Dicts.BuildKeyOrder` | gitlab_status_monitor.py:48 | Keys are ordered by the first pair naming each. |

## Left out

- Reading the configuration file (lines 11-15) is not modelled. `configparser` is I/O; the settings are modelled from the raw values of the four keys the alert uses (`LoadSettings`). `EMAIL_PASS`, `SMTP_SERVER` and `SMTP_PORT` only feed the SMTP connection, which is not modelled.
- Running `gitlab-ctl status` (lines 64-69) is not modelled. It is a subprocess call; its output is the `output` parameter of `Run`. The `CalledProcessError` branch is not modelled either: `subprocess.run` without `check=True` never raises it.
- The SMTP exchange (lines 107-110) is not modelled: TLS, login and `sendmail` are network I/O. Whether it completed without raising is the `delivered` parameter.
- Run: allows `delivered` when `EMAIL_TO + EMAIL_CC` is empty. `sendmail` raises `SMTPRecipientsRefused` for an empty recipient list, so such a delivery cannot happen in practice; the model leaves that to the caller who chooses `delivered`.
- The `Subject`, `To` and `Cc` headers (lines 101-104; To and Cc are `", ".join` of the lists) are not modelled as text: they only feed the MIME message, which is not modelled. The `Email` value keeps the lists and the subject they are made from.
- MIME encoding (`MIMEText`, `as_string`) is not modelled. `formataddr` in the From header is not modelled either: the model keeps the bare sender address. `formataddr` encodes the address as ASCII, so a non-ASCII `EMAIL_FROM` raises at line 102, outside the `try` of line 106. Such a run would crash after deciding to send, with no email delivered and before line 124 saves the status file. The model assumes the header is built without error.
- Calendar formatting and parsing are not modelled. `strftime` is the `stamp` parameter, and `strptime` is a parameter mapping text to whole seconds, `None` for `ValueError`.
- The two `datetime.now()` readings (lines 88 and 95) are separate inputs, `now` and `stamp`.
- File existence checks:
  - A missing status file is modelled as an empty one, because lines 40-41 create it before anything else.
  - A missing last-email file is modelled as `None`.
- File-system errors are not modelled: an unreadable cache file, or a write that fails after the email went out.
- Logging is not modelled. The `USE_SAMPLE_OUTPUT` switch is not modelled either: the sample is modelled as a constant whose parse is proved, and `Run` takes any output.
- No diff between runs is computed. `previous_status` is loaded (lines 43-48) but never used by the script; `Run` reports it, as `previous`, so that a run's effect on the next can be stated.
- Malformed status lines crash the run, as the code does. Skipping such a line is a design alternative that the model does not take.
- File lines are modelled without their line terminator. This makes no difference to the loader, because `line.strip()` removes the terminator anyway.
