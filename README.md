# uiuc-denied: polling core in Dafny

The program polls a university application-status page until an admission
decision appears, then reports whether that happened before or after a fixed
deadline. This project models the sequential logic of `main.go` with the
network, the clock and the notification service turned into inputs:

- **check()'s retry loop** (`Poller.FetchStatus`). It requests the status page
  with a counter that starts at 3. A 200 goes on to parsing. A 302 calls
  `login()` while the counter is at least 1 and fails the cycle with "failed to
  log in" once it is 0. Any other status fails the cycle. The server's answer
  to the k-th request is the input `replies(k)`. The login effect on the server
  is folded into those answers, so the model records only when `login()` is
  called. Go's panic/recover becomes the `Fetch` value that ends the cycle. A
  transport error from `request()` is modelled as `RequestFailed`.
- **Decision extraction** (`Extraction.Extract`). The status text is
  lowercased and searched for `admission decision: ([a-z]+)`. The leftmost
  match is found directly, without a regex engine, and the greedy capture is
  the maximal run of letters a-z.
- **The released flag** (`Poller.Poller`). `decisionReleased` is a field of
  the `Poller` class. `Check` sets it only when a decision is found, so it only
  ever moves from false to true.
- **main()'s loop** (`Poller.Poller.Watch`). It runs over a finite list of
  rounds, each holding the server's answers and the clock reading after the
  check. It records every value `nextTime` takes and gives the early/late
  verdict once the flag is set.
- **Timing arithmetic** (`Schedule`). Times are integer seconds since the Unix
  epoch and `Truncate(t, d) = t - t % d`. Before the deadline the next wake is
  `Truncate(now + 1h, 1h)`; from the deadline on it is `Truncate(now + 5min, 1min)`.
  The deadline 2018-12-14 16:00:01 America/Chicago is the constant
  `Schedule.Doomsday` = 1544824801.

Some details of `main.go` that the model keeps:

- Only status 302 triggers a login (main.go:117). Other redirect codes such
  as 301, 303 and 307 fall to the default case and fail the cycle
  (main.go:126-127).
- There are two cadences: hourly before the deadline and five-minute after
  it (main.go:67-71).
- The pattern is `admission decision: ([a-z]+)`, applied to the lowercased
  status text (main.go:98, 139).
- The counter starts at 3 (main.go:111), which allows three logins and four
  requests of the status page.

## Model

| member | source | states |
|---|---|---|
| `Poller.LoginsFrom` | main.go:115-122 | from request n on, the number of leading 302 answers, capped at the retry counter; every answer it counts is a redirect and the one after it is not |
| `Poller.Logins` | main.go:111-122 | `login()` is called at most 3 times, once for each leading 302 while the counter is at least 1, and the answer after the last login is not a 302 unless all three logins were used |
| `Poller.FetchOutcome` | main.go:114-133 | the first non-302 answer within four requests decides the cycle (200 goes to parse, anything else fails); four 302s in a row, and only these, end in "failed to log in"; parsing is reached only on a 200 |
| `Poller.Settle` | main.go:116-128 | the answer that ends the loop: only a 200 goes to parsing (of that request), a 302 means the logins are used up, a transport error is a failed request, and any other status is unhandled with its own code |
| `Poller.FetchStatus` | main.go:109-133 | the Go loop with its decrementing counter computes exactly `FetchOutcome` and `Logins`; it makes one more request than logins and at most 4 requests |
| `Poller.OnlyFirstRepliesMatter` | main.go:111-133 | answers to requests after the fourth never influence the cycle, so the status page is requested at most 4 times |
| `Poller.TwoRedirectsThenOk` | main.go:116-125 | 302, 302, 200 gives two logins and then parsing of the third page |
| `Poller.OkWithoutLogin` | main.go:123-125 | while the session is valid (first answer 200) no login happens and the first page is parsed |
| `Poller.UnhandledStatusFails` | main.go:126-127 | a first answer other than 200 or 302 ends the cycle as an unhandled status, with no login |
| `Poller.RedirectsExhaustLogins` | main.go:117-120 | four 302s give three logins and "failed to log in"; the fourth 302 triggers no login |
| `Poller.Decision` | main.go:135-147 | the decision one check() finds; its contract says a decision is found only when the retry loop reached parsing, and `DecisionFromFirstOkPage` characterises it completely |
| `Poller.DecisionFromFirstOkPage` | main.go:135-147 | a decision is found exactly when the page that ended the loop was a 200 whose text matches, and it is the word extracted from that text |
| `Poller.FirstRelease` | main.go:57-65 | the index of the first round whose check finds a decision; no earlier round finds one |
| `Poller.Poller.constructor` | main.go:20 | the released flag starts false |
| `Poller.Poller.Check` | main.go:101-147 | check() returns the decision of `Decision` and makes the logins of `Logins`; the flag becomes true exactly when a decision is found and is otherwise unchanged |
| `Poller.Poller.Watch` | main.go:56-81 | the loop stops right after the first round that releases the decision; the first wake is one day before the deadline and each later wake is `NextWake` of that round's clock; the verdict is given exactly when the flag is set |
| `Extraction.LowerChar` | main.go:139 | per-character lowercasing: an upper-case letter A-Z becomes the letter a-z at the same offset, every other character is unchanged |
| `Extraction.Lower` | main.go:139 | lowercasing keeps the length, leaves no upper-case letter, and a position holds a letter a-z exactly when the input held a letter of either case |
| `Extraction.LetterRun` | main.go:98 | the greedy `[a-z]+`: the longest run of letters a-z from a position |
| `Extraction.FindFrom` | main.go:140 | the leftmost position from i on where the whole pattern matches, or none if it matches nowhere |
| `Extraction.Extract` | main.go:139-147 | a word is found exactly when the lowercased text contains the pattern somewhere; the word is non-empty and is the maximal letter run after the leftmost match |
| `Extraction.LowerIdempotent` | main.go:139 | lowercasing twice is lowercasing once |
| `Extraction.ExtractIgnoresCase` | main.go:139-140 | the result depends only on the lowercased text |
| `Extraction.MaximalRunIsLetterRun` | main.go:98 | any maximal run of letters from a position is the one `LetterRun` gives |
| `Extraction.ExtractComplete` | main.go:140-147 | any word that is the maximal run after the leftmost match is exactly what `Extract` returns |
| `Extraction.AdmittedExample` | main.go:139-147 | "Your admission decision: Admitted" yields "admitted" |
| `Extraction.NoPrefixNoDecision` | main.go:141-143 | text that lacks "admission decision: " after lowercasing yields no decision |
| `Schedule.Truncate` | main.go:68-70 | the result is a multiple of d, at most t, and more than t - d |
| `Schedule.TruncateGreatest` | main.go:68-70 | the result is the greatest multiple of d that is at most t |
| `Schedule.NextWake` | main.go:67-71 | before the deadline: a multiple of 3600 in (now, now + 3600]; otherwise a multiple of 60 in (now + 240, now + 300] |
| `Schedule.NextWakeEarliestHour` | main.go:67-68 | before the deadline the next wake is the earliest full hour after now |
| `Schedule.NextWakeLatestMinute` | main.go:69-70 | from the deadline on the next wake is the latest full minute at most five minutes after now |
| `Schedule.Verdict` | main.go:74-80 | "late" exactly when the finish time is after the deadline; finishing at the deadline is "early" |

## Left out

- The HTTP client, cookie jar and redirect policy (main.go:42-52, 196-203) are network I/O. Each answer to a request is an input `Reply`.
- The internals of `login()` (main.go:167-194) are network I/O, and their failures are swallowed inside it. The model records only that it was called.
- The HTML document and the `div #statusArea` selection (main.go:135-139) come from an external HTML library. The status-area text is part of each `Reply`. A failure to parse the page (main.go:136-138) is not modelled.
- The Pushover notifications (main.go:53-54, 58-62, 150-164) do not affect control flow.
- Flag parsing (main.go:31-38) and time-zone loading (main.go:19-28) are configuration. The deadline is converted to Unix seconds by hand.
- `time.Sleep` (main.go:64, 131) is left out, including the 5-second pause after each login. `time.Now` is an input clock reading.
- Printed messages and the `%.1f` hours-remaining text (main.go:58, 104, 124, 130, 148, 81) are output only.
- `Extraction.Lower`: models ASCII case folding only. Go's `strings.ToLower` also lowers non-ASCII letters, some of which map to ASCII letters (the Kelvin sign to `k`).
- `Poller.Poller.Watch`: reads the clock once per round, where main.go:67-68 reads it twice. It runs over a finite list of rounds; if none releases the decision, no verdict is given (the program would still be polling). Times are whole seconds rather than nanoseconds.
