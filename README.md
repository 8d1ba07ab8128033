# Gemini cookie harvester and session keeper — a Dafny model

The repository has two small Python programs that share one `.env` file:

* `get.py`, the **harvester**: after an interactive browser login it reads the
  browser's cookies, picks the identity cookie (`__Secure-1PSID`, or the
  the `Secure_`-prefixed `Secure_1PSID`) and a partner cookie by name precedence
  (`__Secure-1PSIDTS` > `Secure_1PSIDTS` > `__Secure-1PSIDCC` >
  `Secure_1PSIDCC`), and then saves both to `.env`, warns that the partner is
  missing, or reports that no identity cookie was found.
* `app.py`, the **session keeper**: it refuses to start unless
  `SECURE_1PSID` and `SECURE_1PSIDTS` are set and non-empty, and runs a
  monitor that polls the client's live cookie jar. When the partner value
  (precedence `__Secure-1PSIDTS` > `__Secure-1PSIDCC` > `Secure_1PSIDTS` >
  `Secure_1PSIDCC`) is non-empty and differs from the last one seen, the
  monitor remembers it, mirrors it into the process environment and upserts
  `SECURE_1PSIDTS=<value>` into `.env`. Otherwise it advances a heartbeat
  counter that wraps at 50.

The model has these modules:

* `Cookies` (`cookies.dfy`): the first-match selector both programs use.
* `Harvester` (`harvester.dfy`): the cookie list folded into a jar (a
  repeated name keeps its last value), the text `_write_env` writes, and the
  save/warn/fail decision of `fetch_cookies`.
* `TextLines` (`text_lines.dfy`): text as Python's line iteration sees it.
  Each line keeps its `"\n"`, except possibly the last one.
* `EnvFile` (`env_file.dfy`): the read–modify–write upsert
  `_update_env_file`. It is a method with a loop, proved against a
  specification function.
* `Keeper` (`keeper.dfy`): the startup check, the monitor as a `Monitor`
  class with `Tick` and `Run` methods, and the functions and lemmas that
  specify it.
* `Lifecycle` (`lifecycle.dfy`): how the two programs meet through `.env`.
* `Wrappers` (`wrappers.dfy`): `Option` and `Result`.

The `.env` file is modelled as its text. `None` means the file does not
exist. The lines read from it are `TextLines.Lines` of that text. This
representation shows a behaviour of the upsert. If the file does not end
in a newline and no line assigns the key, the appended `key=value\n` joins
the last line. The key is then still not assigned by any line, so the next
upsert of the same value appends it once more as a line of its own; from
then on the text is stable (`EnvFile.UpsertAppendsAgain`, and the concrete
`EnvFile.UpsertNotIdempotent`).
In every other case the upsert is idempotent (`EnvFile.UpsertIdempotent`):
the file is absent, empty, ends in a newline, or already has a line that
assigns the key. Both results assume the key and value contain no newline;
`UpsertAppendsAgain` also assumes the key contains no `=`. The upsert
replaces every line that assigns the key, so a file that already has
duplicate lines for the key keeps them all, each rewritten. Finally, the two
programs rank the partner names differently (`Lifecycle.PrecedenceDiverges`).

## Model

| member | source | states |
|---|---|---|
| `Cookies.Select` | get.py:65-68 | The result is `None` iff no candidate name is in the jar; otherwise it is the jar's value for a candidate present in the jar with no present candidate before it. |
| `Cookies.SelectFirst` | get.py:65-67 | If candidate `i` is present and none before it is, the result is the value of candidate `i`. |
| `Cookies.SelectSplit` | get.py:55-60 | Selecting over `first + second` gives the selection over `first` if that finds anything, else the selection over `second`. |
| `TextLines.Lines` | app.py:35-36 | The lines iterating the file yields; specified by `LinesRoundTrip`, `LinesWellFormed`, `LinesTerminated` and `LinesOfConcat`. |
| `TextLines.LinesRoundTrip` | app.py:36-44 | Joining the lines that iteration yields gives the file's text back. |
| `TextLines.LinesWellFormed` | app.py:36 | Iteration yields non-empty lines with no newline except a final one, and every line but the last is terminated. |
| `TextLines.LinesTerminated` | app.py:36 | A text that is empty or ends in a newline yields only terminated lines. |
| `TextLines.LinesOfConcat` | app.py:44 | Joining well-formed lines and reading the text back gives the same lines. |
| `Harvester.CookieMap` | get.py:64 | A name is in the jar iff some cookie in the list has that name. |
| `Harvester.LastOccurrenceWins` | get.py:64 | For a repeated name, the jar holds the value of its last occurrence in the list. |
| `Harvester.OrderIrrelevant` | get.py:64 | Two cookie lists with distinct names and the same elements give the same jar, whatever their order. |
| `Harvester.ExtractCookieFirst` | get.py:63-67 | `_extract_cookie` returns the value of the last cookie named by the first candidate that names any cookie. |
| `Harvester.ExtractCookieNone` | get.py:65-68 | `_extract_cookie` returns `None` iff no candidate is the name of any cookie. |
| `Harvester.LegacyPartnerWins` | get.py:55-60 | Whenever a legacy TS partner cookie is present, the partner selected is the TS one, never a CC one. |
| `Harvester.ExtractCookie` | get.py:63-68 | `_extract_cookie`: selection over the cookie list folded into a map; specified by `ExtractCookieFirst`, `ExtractCookieNone` and `LegacyPartnerWins`. |
| `Harvester.EnvLines` | get.py:72-74 | The `lines` list `_write_env` builds: the identity line, then the partner line when the partner is non-empty; specified by `EnvContentShape`. |
| `Harvester.Join` | get.py:75 | `sep.join(parts)`; specified, for the lists `_write_env` builds, by `EnvContentShape`. |
| `Harvester.EnvContent` | get.py:71-75 | The text `_write_env` writes; `EnvContentShape` gives its closed form and `HarvestedLines` how it reads back. |
| `Harvester.EnvContentShape` | get.py:72-75 | The written text is `SECURE_1PSID=<sid>` plus a separator, followed by `SECURE_1PSIDTS=<partner>` plus a separator iff the partner is non-empty. |
| `Harvester.FetchCookies` | get.py:91-109 | Names are listed iff `list_always` or the partner is missing or empty. The run saves iff both cookies are non-empty and saving is on, and it then overwrites `.env` with the two-line text of the extracted identity and partner values regardless of what was there. The reported identity and partner are the extracted values. It warns (and leaves `.env` alone) iff the identity is found without a partner, and fails iff the identity is missing or empty. |
| `EnvFile.UpsertLines` | app.py:36-43 | The lines the upsert writes, given the lines read; specified by `UpsertEffect`. |
| `EnvFile.UpsertText` | app.py:30-44 | The text the upsert writes, given the file's text (or no file); specified by `UpsertAppendsText`, `UpsertIdempotent` and `UpsertAppendsAgain`. |
| `EnvFile.UpdateEnvFile` | app.py:30-44 | The loop writes exactly the specified upsert text: matching lines replaced, others kept, the entry appended iff nothing matched. |
| `EnvFile.UpsertEffect` | app.py:36-43 | Every line starting with `key=` becomes `key=value\n`. Every other line is kept in its place. One line is added iff no line matched, and the added line is the entry after all existing lines. |
| `EnvFile.UpsertAppendsText` | app.py:42-44 | When no line assigns the key (or there is no file), the written text is the old text followed by `key=value\n`. |
| `EnvFile.AssignedKey` | app.py:37 | For a key without `=`, a line starting with `key=` has exactly `key` before its first `=`. |
| `EnvFile.AssignsOneKey` | app.py:37 | No line assigns two different `=`-free keys, so upserting `SECURE_1PSID` never touches a `SECURE_1PSIDTS=` line. |
| `EnvFile.EntryIsLine` | app.py:38 | The entry `key=value\n` is one terminated line that assigns `key` (for newline-free key and value). |
| `EnvFile.UpsertWellFormed` | app.py:36-44 | Upserting a newline-free key and value into well-formed lines gives well-formed lines, one of which assigns the key. The input lines must be empty, end in a terminated line, or already hold a line assigning the key. |
| `EnvFile.UpsertFixed` | app.py:36-43 | When some line assigns the key and every such line is already the entry, upserting changes nothing. |
| `EnvFile.UpsertStable` | app.py:36-43 | On lines, a second upsert of the same key and value (neither holding a newline) leaves the lines the first one wrote unchanged. |
| `EnvFile.UpsertIdempotent` | app.py:34-44 | For a key and value without newlines, upserting them twice writes what upserting once wrote, if the file was absent, empty, ended in a newline, or already had a line assigning the key. |
| `EnvFile.UnterminatedLast` | app.py:36 | A text that does not end in a newline yields a last line that holds no newline at all. |
| `EnvFile.GluedNotAssigns` | app.py:37 | A line that does not assign the key still does not assign it with the entry glued to its end (for a key without `=`). |
| `EnvFile.GluedLines` | app.py:36-44 | Take a text with no final newline and no line for the key, a key with no `=` and no newline, and a value with no newline. After the entry is appended, the text read back still has no line assigning the key. |
| `EnvFile.UpsertAppendsAgain` | app.py:36-44 | For an unterminated file with no line for the key (key without `=` or newline, value without newline), the first upsert glues the entry to the last line, the second appends it once more as a line of its own, and a third leaves the text unchanged. |
| `EnvFile.ReadUnterminated` | app.py:35-36 | The text `A=1`, with no final newline, reads as the single line `A=1`. |
| `EnvFile.UpsertNotIdempotent` | app.py:36-44 | Upserting `K=v` into `A=1` writes `A=1K=v\n`, upserting it again writes `A=1K=v\nK=v\n`, and a third upsert leaves that text unchanged. |
| `Keeper.PartnerCookie` | app.py:47-51 | `_partner_cookie`: selection over the keeper's four names; specified by `PartnerCookieOrder`. |
| `Keeper.PartnerCookieOrder` | app.py:47-51 | `_partner_cookie` returns the value of the first of `__Secure-1PSIDTS`, `__Secure-1PSIDCC`, `Secure_1PSIDTS`, `Secure_1PSIDCC` in the jar, else `None`. |
| `Keeper.LoadCredentials` | app.py:21-24 | Startup succeeds iff both `SECURE_1PSID` and `SECURE_1PSIDTS` are set and non-empty, and it then carries their values. |
| `Keeper.Start` | app.py:57-58 | The monitor's state at start: `last` is the jar's partner value then, the counter is 0. |
| `Keeper.Step` | app.py:61-73 | One tick of the monitor; specified by `StepEffect`. |
| `Keeper.RunAll` | app.py:59-73 | Ticks on each snapshot in order; specified by `RunEffect`. |
| `Keeper.StepEffect` | app.py:61-73 | Starting from a counter below 50, a tick commits iff the partner value is non-empty and differs from `last`. It then sets `last` and the environment entry, upserts `.env` and resets the counter. Otherwise `last`, the environment and `.env` are unchanged and the counter becomes `(n+1) mod 50`, so it stays below 50. |
| `Keeper.RotationsStep` | app.py:62-66 | A first observed value that rotates is the first persisted value and the run continues from it; one that does not rotate contributes nothing. |
| `Keeper.RunEffect` | app.py:56-73 | Starting from a counter below 50: after a run of ticks, `.env` is the old text with each rotated value upserted in order. `last` and the environment hold the last rotated value, or are unchanged if nothing rotated. The counter stays below 50. |
| `Keeper.RotationsChange` | app.py:62 | Every persisted value is non-empty, the first differs from the starting value, and each differs from the one before it: there are no spurious rewrites. |
| `Keeper.LastNeverCleared` | app.py:57-63 | An absent or empty value never clears `last`: once a value was seen, one is remembered. |
| `Keeper.SteadyValue` | app.py:62 | Snapshots that all carry the same value persist at most once, and never when that value is the starting one or is absent or empty. |
| `Keeper.RotationExamples` | app.py:57-65 | Starting from A, snapshots A,A,A,B,B,C persist exactly B then C. A, absent, A persists nothing. |
| `Keeper.ScenarioRead` | app.py:35-36 | The file `SECURE_1PSID=abc\nSECURE_1PSIDTS=old\nOTHER=keepme\n` reads as its three lines. |
| `Keeper.ScenarioRewrite` | app.py:36-43 | Upserting `SECURE_1PSIDTS=new123` into those lines replaces only the middle one. |
| `Keeper.ScenarioUpsert` | app.py:30-44 | The written text is `SECURE_1PSID=abc\nSECURE_1PSIDTS=new123\nOTHER=keepme\n`: order kept, nothing else touched. |
| `Keeper.RotationScenario` | app.py:61-67 | A tick that sees `new123` after `old` writes that text, remembers `new123`, mirrors it into the environment and resets the counter. |
| `Keeper.Monitor.constructor` | app.py:57-58 | Monitoring starts with `last` set to the jar's partner value at that moment and the counter at 0. |
| `Keeper.Monitor.Tick` | app.py:61-73 | One tick changes the monitor's state exactly as the tick specification says, and keeps the counter below 50. |
| `Keeper.Monitor.Run` | app.py:59-73 | The polling loop leaves the monitor in the state of the ticks on all snapshots in order. |
| `Lifecycle.PrecedenceDiverges` | get.py:55-60 | For cookies `__Secure-1PSIDCC=cc` and `Secure_1PSIDTS=ts`, the harvester picks `ts` while the keeper's `_partner_cookie` (app.py:48) picks `cc`. |
| `Lifecycle.HarvestedLines` | get.py:72-76 | For a non-empty partner, and identity and partner values without newlines, the text the harvester saves with a `"\n"` separator reads back as exactly its identity line and its partner line. |
| `Lifecycle.HarvestThenRotate` | app.py:36-44 | For a non-empty harvested partner, and identity, partner and rotated values without newlines, rotating the partner in the harvested `.env` keeps the identity line and rewrites the partner line in place. |

## Left out

- Browser automation (launching Chromium, navigation, the `input()` wait, `context.cookies`, `browser.close`) is left out. The cookie list the browser yields is an input, and only each cookie's name and value are kept.
- The `argparse` entry point of the harvester and the `asyncio.run` entry points are left out.
- The Gemini client (construction, `init`, `generate_content`, `close`) is left out. Each read of `client.cookies` is an input jar snapshot to `Tick`, or one element of the sequence given to `Run`.
- Concurrency is left out: `asyncio.Event`, `create_task`, `sleep`, `run_in_executor` and the shutdown ordering in `main`. The monitor is a sequential loop over snapshots, and stopping means the snapshots run out.
- `load_dotenv` is left out: reading `.env` into the process environment is not modelled. The process environment is a map given to the startup check and to the monitor, and `os.getenv` is a lookup in that map (`Keeper.GetEnv`).
- Filesystem I/O is left out. `.env` is a text value, and read/write failures are not modelled. In the source such a failure raises out of the monitor and ends it. UTF-8 encoding is not modelled; text is a sequence of characters.
- Newline translation is left out. Text is what Python sees after universal-newline decoding, so `"\r\n"` is not modelled, and both programs' text-mode writes are taken on a platform where `"\n"` is written as is. `os.linesep` in `_write_env` is the parameter `sep`. Under this assumption `sep` is meaningful only as `"\n"`: for `"\r\n"`, the `env` that `Harvester.FetchCookies` returns is the string handed to `write_text`, not the text on disk, which would hold `"\r\r\n"`.
- `SAVE_TO_ENV` (default `True`) is a parameter of `Harvester.FetchCookies`, so both of its branches are modelled.
- Harvester.FetchCookies: the listed cookie names are a set. Their sorted, comma-joined text and all other console messages are left out.
- Keeper.Monitor.Tick: the printed notice with its 32-character preview and the heartbeat dots and line breaks are left out. Only the heartbeat counter is modelled.
