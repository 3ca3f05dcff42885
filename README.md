# Poll-interval negotiation of the build-farm worker

The worker (`client/worker.rb`) is a Ruby loop. It posts a work request to the
coordinator, reads the answer and then sleeps for its poll interval. The
server steers the interval through the answer's body:

- The status code is read with `to_i`. Any value other than 200 is logged as
  an error and the body is ignored.
- Otherwise the body is cut at line breaks.
- Each line is stripped. Blank lines are skipped.
- The rest of each line is cut at tabs. Only the exact command `SETPOLL` has
  an effect. Its first argument is read with `to_i`, and a missing argument
  reads as `nil.to_i`, which is 0.
- That value is capped at twenty minutes (1200 seconds). It is adopted, with a
  "Poll interval set" log line, when it is at least 30 seconds and differs from
  the current interval.
- The interval starts at 59 seconds.

The model has four modules:

- `RubyText` models the Ruby library behaviour the handling depends on:
  - `String#strip` (NUL and ASCII white space at both ends);
  - `String#split` with a one-character separator (limit 0, so trailing empty
    fields are dropped);
  - `String#to_i` (leading white space, one sign, an optional `0d` prefix,
    digits with single underscores; text with no digit where one is due
    reads as 0);
  - `Integer#to_s` as the partner of `to_i`.
- `PollNegotiation` gives, as functions, the interval and log that a line, a
  body, a response and a run of responses leave behind. It also gives an
  independent reference definition: the accept rule folded over the SETPOLL
  suggestions, equivalently the last eligible suggestion plus the changes
  among them. Lemmas connect the two definitions.
- `WorkerMain` is the imperative worker:
  - a `Config` object whose `pollInterval` field is updated in place;
  - a `Worker` class whose methods handle a line, a body, a response, one pass
    of the loop and a run of passes;
  - each method is proved against the functions above.
- `Scenarios` covers the typical answers: a suggestion above the cap, below
  the minimum and in range; a bare or non-numeric `SETPOLL`; another command;
  padding; two suggestions in one body.

The worker reacts to `SETPOLL` lines anywhere in a 200 body, in body order,
so the last eligible suggestion decides the interval. It never pins the
interval against later suggestions. It knows no other command: a line whose
first field is anything else, `setpoll` in lower case included, is ignored.

## Model

| member | source | states |
|---|---|---|
| RubyText.Strip | client/worker.rb:46 | the stripped line is empty exactly when the line is all white space; otherwise it starts and ends with a non-space character |
| RubyText.StripTrimsEnds | client/worker.rb:46 | a line is the white space that `strip` removes at its head, then the stripped line, then the white space removed at its tail; so `strip` removes exactly the white space at both ends and keeps the middle untouched |
| RubyText.StripIgnoresPadding | client/worker.rb:46 | white space added around a line does not change what `strip` returns |
| RubyText.RawSplit | client/worker.rb:47 | cutting at the separator gives at least one field; no field holds the separator; there is one field exactly when the separator is absent; the last field is empty exactly when the text is empty or ends in the separator |
| RubyText.RawSplitJoinsBack | client/worker.rb:45-47 | gluing the fields back together with the separator gives the original text |
| RubyText.RawSplitJoin | client/worker.rb:45-47 | cutting a join of separator-free fields gives the fields back |
| RubyText.Split | client/worker.rb:45-47 | `split` keeps the raw fields except for the run of trailing empty ones, which it drops entirely (the last field kept is never empty), and keeps all of them when the text does not end in the separator |
| RubyText.SplitJoin | client/worker.rb:45-47 | splitting a join whose last field is not empty gives the fields back |
| RubyText.DecimalRoundTrip | client/worker.rb:50 | `to_i` reads back every integer that `to_s` writes, negative ones included |
| RubyText.ToI | client/worker.rb:42-50 | `String#to_i`; it carries no contract of its own, and what it reads is stated by the `ToI…` lemmas below: leading white space is skipped; digits alone, or after a sign, read as their value; a number followed by other text reads as that number; the `0d` prefix is skipped, and reads as 0 with no digit after it; an underscore between digits is skipped; a sign with no digit after it reads as 0; text starting with anything else reads as 0 |
| RubyText.ToIOfLeadingNumber | client/worker.rb:50 | no sign, "+" or "-", then digits, then text that does not continue them (neither a digit nor an underscore before a digit, and no `0d` prefix) read as the digits' value, negated after "-": "45s", "45 " and "+45" read as 45 |
| RubyText.ToIOfSignWithoutDigits | client/worker.rb:50 | "+" or "-" followed by nothing or by a non-digit reads as 0: "+", "-", "+x" and "- 5" all do |
| RubyText.ToIOfBareRadixPrefix | client/worker.rb:50 | after an optional sign, "0d" or "0D" followed by nothing or by a non-digit reads as 0 |
| RubyText.ToIOfRadixPrefix | client/worker.rb:50 | after an optional sign, "0d" or "0D" before the digits is skipped and the digits read in base 10: "0d45" reads as 45 |
| RubyText.ToIIgnoresUnderscore | client/worker.rb:50 | a single underscore between two digits does not change what `to_i` reads: "4_5" reads as "45" does |
| RubyText.ToIOfDigits | client/worker.rb:42 | a string of decimal digits reads as the number it denotes |
| RubyText.ToIOfNegatedDigits | client/worker.rb:50 | a minus sign followed by decimal digits reads as the negated number |
| RubyText.ToISkipsLeadingSpace | client/worker.rb:50 | white space before a number does not change what `to_i` reads |
| RubyText.ToIOfNonNumeric | client/worker.rb:50 | text that does not start with white space, a sign or a digit, and the empty string, read as 0 |
| PollNegotiation.Parse | client/worker.rb:46-49 | a line reads as blank exactly when it is all white space; a command other than SETPOLL is never empty and never `SETPOLL`; which lines read as SETPOLL, and with which argument, is stated by `ParseFields` |
| PollNegotiation.ParseFields | client/worker.rb:46-49 | a line of tab-separated fields (first field not starting, last field not ending, with white space) reads as SETPOLL exactly when its first field is `SETPOLL`, case-sensitively; its argument is the second field, and absent when there is none; later fields are ignored; any other first field reads as that command |
| PollNegotiation.Suggestion | client/worker.rb:50 | `args[0].to_i`, where a missing argument is `nil` and reads as 0: only a present argument can suggest anything other than 0 |
| PollNegotiation.Clamp | client/worker.rb:50 | the capped value is at most 1200 and at most the suggestion, and is one of the two |
| PollNegotiation.AcceptRule | client/worker.rb:50-52 | a capped value of at least 30 becomes the interval; anything lower leaves the interval unchanged; so the result is the old interval or lies in [30, 1200] |
| PollNegotiation.NextInterval | client/worker.rb:46-52 | after one line the interval is the old one or lies in [30, 1200] |
| PollNegotiation.LineLog | client/worker.rb:51-53 | a line logs nothing when it leaves the interval unchanged, and otherwise exactly one "Poll interval set" naming the new interval |
| PollNegotiation.LineEffect | client/worker.rb:46-54 | non-SETPOLL and blank lines change nothing and log nothing; a SETPOLL whose capped value is below 30, or equals the interval, changes nothing and logs nothing; otherwise the interval becomes exactly that value, with exactly one log line naming it |
| PollNegotiation.ParseIgnoresPadding | client/worker.rb:46-47 | white space, tabs included, around a line is removed before it is cut at tabs, so it does not change how the line reads |
| PollNegotiation.SetPollArgLine | client/worker.rb:47-49 | "SETPOLL", a tab and one argument reads as SETPOLL with that argument |
| PollNegotiation.SetPollLineRoundTrip | client/worker.rb:47-50 | the line a server writes to suggest n reads back as the suggestion n |
| PollNegotiation.Lines | client/worker.rb:45 | `body.split("\n")`: no line holds a line break, and the last line, if any, is not empty |
| PollNegotiation.BodyInterval | client/worker.rb:45-56 | after handling lines in order, the interval is the old one or lies in [30, 1200] |
| PollNegotiation.BodyLog | client/worker.rb:45-56 | handling lines in order logs at most one entry per line |
| PollNegotiation.BodyStep | client/worker.rb:45-56 | handling one more line applies its effect to the interval reached so far and writes its log after what came before |
| PollNegotiation.LogAdvance | client/worker.rb:45-56 | a log holding what the first i lines wrote holds, once line i is handled, what the first i + 1 lines wrote |
| PollNegotiation.OneLineBody | client/worker.rb:45 | a body without line breaks is handled as exactly one line |
| PollNegotiation.LinesOfJoin | client/worker.rb:45 | lines joined by line breaks (the last one not empty) are handled as those lines |
| PollNegotiation.ResponseInterval | client/worker.rb:42-56 | after a response the interval is the old one or lies in [30, 1200] |
| PollNegotiation.ResponseLog | client/worker.rb:42-56 | a 200 response logs at most one entry per body line |
| PollNegotiation.Pass | client/worker.rb:38-60 | one pass keeps the earlier log, ends it with "Sleeping for" the interval now in force, and adds exactly one sleep of that interval |
| PollNegotiation.RunFrom | client/worker.rb:38-61 | a run of passes adds exactly one sleep per response after the earlier sleeps, and keeps the earlier log, adding at least one entry per response |
| PollNegotiation.RunStep | client/worker.rb:38-61 | one more pass handles its response after all those before it |
| PollNegotiation.Eligible | client/worker.rb:50-51 | the eligible suggestions are no more than the suggestions, and every one lies in [30, 1200] |
| PollNegotiation.BodyIsFoldOfAcceptRule | client/worker.rb:45-56 | handling a body line by line gives the accept rule folded from the left over its SETPOLL suggestions, in body order |
| PollNegotiation.FoldIsLastEligible | client/worker.rb:50-52 | that fold ends on the last suggestion whose capped value is at least 30, or on the starting interval if there is none |
| PollNegotiation.BodyIntervalIsLastEligible | client/worker.rb:45-56 | after a body, the interval is the last eligible capped suggestion, or the old interval |
| PollNegotiation.BodyLogIsChanges | client/worker.rb:45-56 | a body logs exactly one "Poll interval set" entry per actual change of the interval, each naming the new value, in body order, and nothing else |
| PollNegotiation.LineLogIsChanges | client/worker.rb:49-54 | one line logs exactly the change its eligible suggestion makes, if any |
| PollNegotiation.ErrorResponseIgnoresBody | client/worker.rb:42-43 | a status other than 200 leaves the interval unchanged and logs only the error, whatever the body |
| PollNegotiation.OkResponseIsLastEligible | client/worker.rb:42-56 | a 200 response ends on the last eligible suggestion of its body and logs each change among the eligible suggestions |
| PollNegotiation.ResponseStaysInRange | client/worker.rb:42-56 | after any response the interval is unchanged or in [30, 1200]; an interval in range stays in range; one at most 1200 stays at most 1200 |
| PollNegotiation.RunStaysInRange | client/worker.rb:38-61 | a run sleeps once per response; every sleep, and the final interval, is the starting interval or lies in [30, 1200]; from an interval in range, every sleep is in range |
| WorkerMain.Config.constructor | client/worker.rb:18-27 | the configuration starts with host "localhost:8080", name "bar" and an interval of 59 seconds |
| WorkerMain.Worker.constructor | client/worker.rb:22-27 | a fresh worker has the default interval, which is in [30, 1200], and has logged and slept nothing |
| WorkerMain.Worker.ApplyLine | client/worker.rb:46-55 | handling a line in place sets the interval and appends to the log exactly what the line's effect says |
| WorkerMain.Worker.ApplyLines | client/worker.rb:45-56 | the loop over a body's lines leaves the interval and the log of handling those lines in order |
| WorkerMain.Worker.ProcessResponse | client/worker.rb:42-57 | handling a response leaves the interval and log that the response defines; it keeps the interval in range and keeps it at most 1200 |
| WorkerMain.Worker.Tick | client/worker.rb:39-60 | one pass of the loop moves the worker's state as `Pass` says, and keeps the interval in range |
| WorkerMain.Worker.Run | client/worker.rb:38-61 | the loop over the answers to the passes begun before the interrupt moves the state as `RunFrom` says, and keeps the interval in range |
| Scenarios.OkCodeReads | client/worker.rb:42 | the status text "200" passes the gate |
| Scenarios.SetPollLine5000 | client/worker.rb:47-50 | the line suggesting 5000 seconds is "SETPOLL", a tab, "5000" |
| Scenarios.SetPoll5000IsCapped | client/worker.rb:50-52 | after a 200 answer "SETPOLL\t5000" the interval is 1200 |
| Scenarios.SinglePollAnswer | client/worker.rb:45-50 | a 200 answer holding one SETPOLL line is handled as that line, which reads as its suggestion |
| Scenarios.SuggestionAboveCapIsCapped | client/worker.rb:50-53 | a suggestion of 1200 or more sets the interval to 1200, announced unless it was already 1200 |
| Scenarios.SuggestionBelowMinimumIsIgnored | client/worker.rb:50-51 | a suggestion below 30 changes nothing and logs nothing |
| Scenarios.SuggestionInRangeIsAdopted | client/worker.rb:50-53 | a suggestion in [30, 1200] becomes the interval and is announced exactly when it differs |
| Scenarios.MissingArgumentIsIgnored | client/worker.rb:47-51 | a SETPOLL line without an argument suggests 0 and changes nothing |
| Scenarios.BareSetPollReads | client/worker.rb:46-49 | "SETPOLL" alone reads as SETPOLL without an argument |
| Scenarios.NonNumericSetPollIsIgnored | client/worker.rb:50-51 | a SETPOLL whose argument starts with a character other than white space, a sign or a digit suggests 0 and changes nothing |
| Scenarios.SignWithoutDigitsIsIgnored | client/worker.rb:50-51 | a SETPOLL whose argument is a sign with no digit right after it, such as "+x", suggests 0 and changes nothing |
| Scenarios.OtherCommandIsIgnored | client/worker.rb:47-49 | a line whose first field is any command other than SETPOLL, with any number of arguments or none, reads as that command and changes nothing |
| Scenarios.LowerCaseSetPollIsIgnored | client/worker.rb:48-49 | "setpoll", a tab, "45" is another command: the match is case-sensitive, and the line changes nothing |
| Scenarios.FirstArgumentCounts | client/worker.rb:47-50 | in a SETPOLL line with more arguments, such as "SETPOLL\t45\t60", only the first one is the suggestion |
| Scenarios.TextAfterNumberIsIgnored | client/worker.rb:47-50 | "SETPOLL\t45 \t60" reads as SETPOLL with the argument "45 ", which suggests 45 |
| Scenarios.SameReadingSameEffect | client/worker.rb:45-56 | two one-line bodies that read the same have the same effect |
| Scenarios.PaddedLineIsReadAsBare | client/worker.rb:46 | blanks, tabs and carriage returns around a SETPOLL line do not change its effect |
| Scenarios.SetPollLineSuggests | client/worker.rb:47-50 | the SETPOLL line for n suggests exactly n |
| Scenarios.JoinedLinesBody | client/worker.rb:45-56 | for a body of lines joined by line breaks, the interval is the last eligible suggestion and the log announces the changes |
| Scenarios.TwoSuggestionLines | client/worker.rb:45-56 | a body of a line suggesting a and one suggesting b is handled through the eligible values among a and b |
| Scenarios.TwoEligibleChanges | client/worker.rb:51-53 | two suggestions in range are both eligible; each is announced when it differs from the value before it |
| Scenarios.LastSuggestionWins | client/worker.rb:45-56 | of two in-range SETPOLL lines in one body, the second is the interval afterwards; each is announced when it differs from the value before it |

## Left out

- `Net::HTTP.post_form` and `URI.parse` (lines 32, 39-41) are network calls. Each answer is a `Response` value holding the status text and the body.
- `trap("INT")` and the `interrupted` flag (lines 29-30) are not modelled. The flag is tested only at the head of the loop (line 38), so a pass already under way when the interrupt arrives still handles its answer and sleeps. `Run` is therefore given the answers to the passes begun before the interrupt, and the loop stops after the last of them.
- The real `sleep` (line 60) is recorded as a value in the `sleeps` sequence. No time passes in the model.
- The `puts` formatting of `log` (lines 34-36) is not modelled. Each console line is a `LogEntry` value carrying the data it prints.
- The commented-out Python snippet (lines 3-12) is not code.
- The host and name set at start-up (lines 23-24) are only stored. They are used by the network call, which is outside the model.
- RubyText.ToI: models base 10 only (with its `0d` prefix), the only base the worker uses. It follows the `String#to_i` of current Ruby (2.4 and later); older versions differed in corner cases such as leading underscores.
- RubyText.Strip: follows the `String#strip` of Ruby 3.x, which removes NUL and ASCII white space (tab, line feed, vertical tab, form feed, carriage return, space) at both ends. Older Ruby versions removed a NUL only at the tail. Non-ASCII white space is kept.
- A body that is not text (`nil`) is not modelled: the body is always a string.
