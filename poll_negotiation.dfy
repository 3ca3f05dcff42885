/**
 * What one pass of the worker's polling loop does with the server's answer,
 * as functions: how a body line is read, the rule that decides whether a
 * SETPOLL suggestion is adopted, and the interval and log that a line, a body,
 * a response and a run of responses leave behind. The methods of the worker
 * are proved against these functions, and the lemmas here state what the
 * functions guarantee.
 */
module PollNegotiation {
  import opened RubyText

  datatype Option<+T> = None | Some(value: T)

  /** The interval the worker starts with, until the server says otherwise. */
  const DefaultPollInterval := 59
  /** Suggestions are capped at twenty minutes. */
  const MaxPollInterval := 60 * 20
  /** Capped suggestions below this many seconds are ignored. */
  const MinPollInterval := 30

  /** The only status code whose body the worker reads. */
  const OkStatus := 200

  predicate InRange(seconds: int) {
    MinPollInterval <= seconds <= MaxPollInterval
  }

  /** One line of the worker's console output. */
  datatype LogEntry =
    | ErrorResponse(code: string)   // "Error response: code <code>"
    | PollIntervalSet(seconds: int) // "Poll interval set to <seconds>"
    | Sleeping(seconds: int)        // "Sleeping for <seconds> seconds"

  /** What the server answered to one work request: the status code as the
      text the HTTP library hands over, and the body. */
  datatype Response = Response(code: string, body: string)

  /** How a body line reads once it is stripped and cut at tabs. */
  datatype Directive =
    | Blank                          // nothing but white space: skipped
    | SetPoll(arg: Option<string>)   // "SETPOLL", with its first argument if any
    | Other(command: string)         // any other command: no effect

  // ---------------------------------------------------------------------------
  // One line
  // ---------------------------------------------------------------------------

  /** Reads a body line: strip it, skip it if nothing is left, else cut it at
      tabs and compare the first field, case-sensitively, with "SETPOLL". */
  function Parse(line: string): (d: Directive)
    ensures d.Blank? <==> AllStripSpace(line)
    ensures d.Other? ==> d.command != "SETPOLL" && d.command != []
  {
    var t := Strip(line);
    if t == [] then Blank
    else
      var fields := Split(t, '\t');
      assert fields[0] == RawSplit(t, '\t')[0];
      if fields[0] == "SETPOLL" then SetPoll(if |fields| > 1 then Some(fields[1]) else None)
      else Other(fields[0])
  }

  /** How a line reads, in terms of its stripped form and that form's fields. */
  lemma ParseOfStripped(line: string, stripped: string, fields: seq<string>)
    requires stripped == Strip(line) && stripped != [] && fields == Split(stripped, '\t')
    ensures |fields| >= 1
    ensures Parse(line)
         == if fields[0] == "SETPOLL" then SetPoll(if |fields| > 1 then Some(fields[1]) else None)
            else Other(fields[0])
  {
    assert fields[0] == RawSplit(stripped, '\t')[0];
  }

  /** The suggested interval: `to_i` of the first argument; a missing argument
      is nil, and nil.to_i is 0. */
  function Suggestion(arg: Option<string>): (n: int)
    ensures n != 0 ==> arg.Some?
  {
    match arg
    case None => 0
    case Some(a) => ToI(a)
  }

  /** `[60*20, v].min`. */
  function Clamp(suggested: int): (v: int)
    ensures v <= MaxPollInterval && v <= suggested
    ensures v == suggested || v == MaxPollInterval
  {
    if suggested < MaxPollInterval then suggested else MaxPollInterval
  }

  /** Whether a suggestion is adopted and announced: its capped value is at
      least the minimum and differs from the current interval. */
  predicate Adopts(current: int, suggested: int) {
    var v := Clamp(suggested);
    v >= MinPollInterval && current != v
  }

  /** The interval after a SETPOLL suggestion. The check that the value differs
      only decides whether a log line is written: a capped value within range
      always ends up as the interval, anything below the minimum never does. */
  function AcceptRule(current: int, suggested: int): (r: int)
    ensures Clamp(suggested) >= MinPollInterval ==> r == Clamp(suggested)
    ensures Clamp(suggested) < MinPollInterval ==> r == current
    ensures r == current || InRange(r)
  {
    if Adopts(current, suggested) then Clamp(suggested) else current
  }

  /** The interval after acting on a directive: only SETPOLL can change it. */
  function DirectiveInterval(current: int, d: Directive): int {
    match d
    case SetPoll(arg) => AcceptRule(current, Suggestion(arg))
    case _ => current
  }

  /** What acting on a directive writes to the log. */
  function DirectiveLog(current: int, d: Directive): seq<LogEntry> {
    match d
    case SetPoll(arg) =>
      if Adopts(current, Suggestion(arg)) then [PollIntervalSet(Clamp(Suggestion(arg)))] else []
    case _ => []
  }

  /** The interval after handling one body line. */
  function NextInterval(current: int, line: string): (next: int)
    ensures next == current || InRange(next)
  {
    DirectiveInterval(current, Parse(line))
  }

  /** What handling one body line writes to the log. */
  function LineLog(current: int, line: string): (log: seq<LogEntry>)
    ensures log == if NextInterval(current, line) == current then [] else [PollIntervalSet(NextInterval(current, line))]
  {
    DirectiveLog(current, Parse(line))
  }

  /** The effect of one body line, case by case. */
  lemma LineEffect(current: int, line: string)
    ensures !Parse(line).SetPoll? ==> NextInterval(current, line) == current && LineLog(current, line) == []
    ensures Parse(line).SetPoll? ==>
      var v := Clamp(Suggestion(Parse(line).arg));
      && (v < MinPollInterval ==> NextInterval(current, line) == current && LineLog(current, line) == [])
      && (v == current ==> NextInterval(current, line) == current && LineLog(current, line) == [])
      && (v >= MinPollInterval && v != current ==>
            NextInterval(current, line) == v && LineLog(current, line) == [PollIntervalSet(v)])
  {
  }

  /** White space around a line, tabs included, does not change how it reads. */
  lemma ParseIgnoresPadding(pre: string, line: string, post: string)
    requires AllStripSpace(pre) && AllStripSpace(post)
    ensures Parse(pre + line + post) == Parse(line)
  {
    StripIgnoresPadding(pre, line, post);
  }

  /** The line a server writes to suggest `n` seconds. */
  function SetPollLine(n: int): (line: string)
    ensures '\n' !in line
  {
    "SETPOLL\t" + Decimal(n)
  }

  /** How a line of tab-separated fields reads, for every line whose first
      field does not start, and whose last field does not end, with white
      space: by its first field, "SETPOLL" taking the second field, if any, as
      its argument and ignoring the rest. */
  lemma ParseFields(command: string, args: seq<string>)
    requires command != [] && !IsStripSpace(command[0]) && '\t' !in command
    requires forall i :: 0 <= i < |args| ==> '\t' !in args[i]
    requires var last := if args == [] then command else args[|args| - 1];
      last != [] && !IsStripSpace(last[|last| - 1])
    ensures Parse(Join([command] + args, '\t'))
         == if command == "SETPOLL" then SetPoll(if |args| > 0 then Some(args[0]) else None)
            else Other(command)
  {
    var line := Join([command] + args, '\t');
    JoinedFields(command, args);
    ReadFields(line, command, args);
  }

  /** Such a line is not blank and, once stripped, splits back into its fields. */
  lemma JoinedFields(command: string, args: seq<string>)
    requires command != [] && !IsStripSpace(command[0]) && '\t' !in command
    requires forall i :: 0 <= i < |args| ==> '\t' !in args[i]
    requires var last := if args == [] then command else args[|args| - 1];
      last != [] && !IsStripSpace(last[|last| - 1])
    ensures Strip(Join([command] + args, '\t')) != []
    ensures Split(Strip(Join([command] + args, '\t')), '\t') == [command] + args
  {
    var parts := [command] + args;
    assert parts[0] == command && parts[|parts| - 1] == if args == [] then command else args[|args| - 1];
    forall i | 0 <= i < |parts|
      ensures '\t' !in parts[i]
    {
      if i > 0 {
        assert parts[i] == args[i - 1];
      }
    }
    JoinedParts(parts);
  }

  /** The same for fields given as one sequence. */
  lemma JoinedParts(parts: seq<string>)
    requires |parts| >= 1 && forall i :: 0 <= i < |parts| ==> '\t' !in parts[i]
    requires parts[0] != [] && !IsStripSpace(parts[0][0])
    requires var last := parts[|parts| - 1]; last != [] && !IsStripSpace(last[|last| - 1])
    ensures Strip(Join(parts, '\t')) != []
    ensures Split(Strip(Join(parts, '\t')), '\t') == parts
  {
    JoinIsTrimmed(parts, '\t');
    SplitJoin(parts, '\t');
  }

  /** A line that is not blank reads by the tab-separated fields of its stripped form. */
  lemma ReadFields(line: string, command: string, args: seq<string>)
    requires Strip(line) != [] && Split(Strip(line), '\t') == [command] + args
    ensures Parse(line)
         == if command == "SETPOLL" then SetPoll(if |args| > 0 then Some(args[0]) else None)
            else Other(command)
  {
    var fields := [command] + args;
    assert fields[0] == command;
    assert |args| > 0 ==> fields[1] == args[0];
  }

  /** "SETPOLL", a tab and one argument reads as SETPOLL with that argument,
      provided the argument holds no tab and does not end in white space. */
  lemma SetPollArgLine(arg: string)
    requires arg != [] && '\t' !in arg && !IsStripSpace(arg[|arg| - 1])
    ensures Parse("SETPOLL\t" + arg) == SetPoll(Some(arg))
  {
    assert "SETPOLL\t" + arg == Join(["SETPOLL"] + [arg], '\t');
    ParseFields("SETPOLL", [arg]);
  }

  /** A suggestion of `n` written as a line reads back as the suggestion `n`. */
  lemma SetPollLineRoundTrip(n: int)
    ensures Parse(SetPollLine(n)) == SetPoll(Some(Decimal(n)))
    ensures Suggestion(Parse(SetPollLine(n)).arg) == n
  {
    SetPollArgLine(Decimal(n));
    DecimalRoundTrip(n);
  }

  /** `body.split("\n")`. */
  function Lines(body: string): (lines: seq<string>)
    ensures forall i :: 0 <= i < |lines| ==> '\n' !in lines[i]
    ensures lines == [] || lines[|lines| - 1] != []
  {
    Split(body, '\n')
  }

  /** The interval after handling `lines` one after another. */
  function BodyInterval(current: int, lines: seq<string>): (interval: int)
    ensures interval == current || InRange(interval)
  {
    if lines == [] then current
    else NextInterval(BodyInterval(current, lines[..|lines| - 1]), lines[|lines| - 1])
  }

  /** The log written while handling `lines` one after another. */
  function BodyLog(current: int, lines: seq<string>): (log: seq<LogEntry>)
    ensures |log| <= |lines|
  {
    if lines == [] then []
    else
      var init := lines[..|lines| - 1];
      BodyLog(current, init) + LineLog(BodyInterval(current, init), lines[|lines| - 1])
  }

  /** Handling one more line: its effect is applied to the interval reached
      so far, and what it logs is written after what came before. */
  lemma BodyStep(current: int, lines: seq<string>, i: int)
    requires 0 <= i < |lines|
    ensures var before := BodyInterval(current, lines[..i]);
      && BodyInterval(current, lines[..i + 1]) == NextInterval(before, lines[i])
      && BodyLog(current, lines[..i + 1]) == BodyLog(current, lines[..i]) + LineLog(before, lines[i])
  {
    var done := lines[..i + 1];
    assert done[..i] == lines[..i] && done[i] == lines[i];
  }

  /** The same step, stated over the log a caller holds: a log that is
      `base` followed by what the first `i` lines wrote becomes, once line `i`
      is handled, `base` followed by what the first `i + 1` lines wrote. */
  lemma LogAdvance(current: int, lines: seq<string>, i: int, base: seq<LogEntry>,
                   log: seq<LogEntry>, log': seq<LogEntry>)
    requires 0 <= i < |lines|
    requires log == base + BodyLog(current, lines[..i])
    requires log' == log + LineLog(BodyInterval(current, lines[..i]), lines[i])
    ensures log' == base + BodyLog(current, lines[..i + 1])
  {
    BodyStep(current, lines, i);
    AppendAssociates(base, BodyLog(current, lines[..i]), LineLog(BodyInterval(current, lines[..i]), lines[i]));
  }

  /** A body without line breaks is one line. */
  lemma OneLineBody(current: int, line: string)
    requires line != [] && '\n' !in line
    ensures Lines(line) == [line]
    ensures BodyInterval(current, Lines(line)) == NextInterval(current, line)
    ensures BodyLog(current, Lines(line)) == LineLog(current, line)
  {
    RawSplitOfField(line, '\n');
    assert DropTrailingEmpty([line]) == [line];
    assert Lines(line) == [line];
    assert [line][..0] == [];
    assert BodyInterval(current, [line]) == NextInterval(current, line);
    assert BodyLog(current, [line]) == BodyLog(current, []) + LineLog(current, line);
  }

  /** The lines of a body written as lines joined by line breaks. */
  lemma LinesOfJoin(lines: seq<string>)
    requires |lines| >= 1 && lines[|lines| - 1] != []
    requires forall i :: 0 <= i < |lines| ==> '\n' !in lines[i]
    ensures Lines(Join(lines, '\n')) == lines
  {
    SplitJoin(lines, '\n');
  }

  // ---------------------------------------------------------------------------
  // A response, and a run of responses
  // ---------------------------------------------------------------------------

  /** The interval after a response: unchanged unless `code.to_i` is 200. */
  function ResponseInterval(current: int, code: string, body: string): (interval: int)
    ensures interval == current || InRange(interval)
  {
    if ToI(code) != OkStatus then current else BodyInterval(current, Lines(body))
  }

  /** The log written while handling a response. */
  function ResponseLog(current: int, code: string, body: string): (log: seq<LogEntry>)
    ensures ToI(code) == OkStatus ==> |log| <= |Lines(body)|
  {
    if ToI(code) != OkStatus then [ErrorResponse(code)] else BodyLog(current, Lines(body))
  }

  /** What the polling loop has produced so far: the interval in force, the
      console log and the sleeps taken. */
  datatype Trace = Trace(interval: int, log: seq<LogEntry>, sleeps: seq<int>)

  /** One pass of the polling loop: handle the response, then log and take a
      sleep of the interval now in force. */
  function Pass(t: Trace, r: Response): (u: Trace)
    ensures |u.log| > |t.log| && u.log[..|t.log|] == t.log
    ensures u.log[|u.log| - 1] == Sleeping(u.interval)
    ensures u.sleeps == t.sleeps + [u.interval]
  {
    var next := ResponseInterval(t.interval, r.code, r.body);
    Trace(next, t.log + ResponseLog(t.interval, r.code, r.body) + [Sleeping(next)], t.sleeps + [next])
  }

  /** The passes for `responses`, in order. */
  function RunFrom(t: Trace, responses: seq<Response>): (u: Trace)
    ensures |u.sleeps| == |t.sleeps| + |responses| && u.sleeps[..|t.sleeps|] == t.sleeps
    ensures |u.log| >= |t.log| + |responses| && u.log[..|t.log|] == t.log
  {
    if responses == [] then t
    else Pass(RunFrom(t, responses[..|responses| - 1]), responses[|responses| - 1])
  }

  /** One more pass of the loop: its response is handled after those before. */
  lemma RunStep(t: Trace, responses: seq<Response>, n: int)
    requires 0 <= n < |responses|
    ensures RunFrom(t, responses[..n + 1]) == Pass(RunFrom(t, responses[..n]), responses[n])
  {
    var done := responses[..n + 1];
    assert done[..n] == responses[..n] && done[n] == responses[n];
  }

  // ---------------------------------------------------------------------------
  // Reference definitions: the SETPOLL suggestions, folded from the left
  // ---------------------------------------------------------------------------

  /** The suggestions of the SETPOLL lines among `lines`, in order. */
  function Suggestions(lines: seq<string>): seq<int> {
    if lines == [] then []
    else LineSuggestion(lines[0]) + Suggestions(lines[1..])
  }

  function LineSuggestion(line: string): seq<int> {
    match Parse(line)
    case SetPoll(arg) => [Suggestion(arg)]
    case _ => []
  }

  /** The accept rule folded over suggestions from the left. */
  function FoldAccept(current: int, suggestions: seq<int>): int
    decreases |suggestions|
  {
    if suggestions == [] then current
    else FoldAccept(AcceptRule(current, suggestions[0]), suggestions[1..])
  }

  /** The capped suggestions that are not below the minimum, in order. */
  function Eligible(suggestions: seq<int>): (vs: seq<int>)
    ensures |vs| <= |suggestions|
    ensures forall i :: 0 <= i < |vs| ==> InRange(vs[i])
  {
    if suggestions == [] then []
    else
      var v := Clamp(suggestions[0]);
      (if v >= MinPollInterval then [v] else []) + Eligible(suggestions[1..])
  }

  function LastOr(current: int, vs: seq<int>): int {
    if vs == [] then current else vs[|vs| - 1]
  }

  /** The values of `vs` that differ from the one before them (the first one
      compared with `previous`). */
  function Changes(previous: int, vs: seq<int>): seq<int>
    decreases |vs|
  {
    if vs == [] then []
    else (if vs[0] != previous then [vs[0]] else []) + Changes(vs[0], vs[1..])
  }

  function Announce(vs: seq<int>): (log: seq<LogEntry>)
    ensures |log| == |vs|
    ensures forall i :: 0 <= i < |vs| ==> log[i] == PollIntervalSet(vs[i])
  {
    seq(|vs|, i requires 0 <= i < |vs| => PollIntervalSet(vs[i]))
  }

  // ---------------------------------------------------------------------------
  // Lemmas connecting the two
  // ---------------------------------------------------------------------------

  lemma {:induction false} SuggestionsAppend(a: seq<string>, b: seq<string>)
    ensures Suggestions(a + b) == Suggestions(a) + Suggestions(b)
  {
    if a == [] {
      assert a + b == b;
    } else {
      assert (a + b)[1..] == a[1..] + b;
      SuggestionsAppend(a[1..], b);
    }
  }

  lemma {:induction false} FoldAcceptAppend(current: int, vs: seq<int>, v: int)
    ensures FoldAccept(current, vs + [v]) == AcceptRule(FoldAccept(current, vs), v)
    decreases |vs|
  {
    if vs != [] {
      assert (vs + [v])[1..] == vs[1..] + [v];
      FoldAcceptAppend(AcceptRule(current, vs[0]), vs[1..], v);
    }
  }

  lemma {:induction false} EligibleAppend(a: seq<int>, b: seq<int>)
    ensures Eligible(a + b) == Eligible(a) + Eligible(b)
  {
    if a == [] {
      assert a + b == b;
    } else {
      assert (a + b)[1..] == a[1..] + b;
      EligibleAppend(a[1..], b);
    }
  }

  lemma {:induction false} ChangesAppend(previous: int, a: seq<int>, b: seq<int>)
    ensures Changes(previous, a + b) == Changes(previous, a) + Changes(LastOr(previous, a), b)
    decreases |a|
  {
    if a == [] {
      assert a + b == b;
    } else {
      assert (a + b)[1..] == a[1..] + b;
      ChangesAppend(a[0], a[1..], b);
      assert LastOr(a[0], a[1..]) == LastOr(previous, a);
    }
  }

  lemma AnnounceAppend(a: seq<int>, b: seq<int>)
    ensures Announce(a + b) == Announce(a) + Announce(b)
  {
  }

  /** Handling the body line by line is the accept rule folded from the left
      over the SETPOLL suggestions in body order. */
  lemma {:induction false} BodyIsFoldOfAcceptRule(current: int, lines: seq<string>)
    ensures BodyInterval(current, lines) == FoldAccept(current, Suggestions(lines))
  {
    if lines != [] {
      var init, x := lines[..|lines| - 1], lines[|lines| - 1];
      assert lines == init + [x];
      BodyIsFoldOfAcceptRule(current, init);
      SuggestionsAppend(init, [x]);
      assert Suggestions([x]) == LineSuggestion(x);
      match Parse(x)
      case SetPoll(arg) =>
        FoldAcceptAppend(current, Suggestions(init), Suggestion(arg));
      case _ =>
        assert Suggestions(lines) == Suggestions(init);
    }
  }

  /** The fold ends on the last eligible suggestion, or where it started if
      there is none. */
  lemma {:induction false} FoldIsLastEligible(current: int, suggestions: seq<int>)
    ensures FoldAccept(current, suggestions) == LastOr(current, Eligible(suggestions))
    decreases |suggestions|
  {
    if suggestions != [] {
      var v, rest := suggestions[0], suggestions[1..];
      FoldIsLastEligible(AcceptRule(current, v), rest);
      assert suggestions == [v] + rest;
      EligibleAppend([v], rest);
    }
  }

  /** After a body, the interval is the capped value of the last SETPOLL line
      that is at least the minimum, or the old interval if there is none. */
  lemma BodyIntervalIsLastEligible(current: int, lines: seq<string>)
    ensures BodyInterval(current, lines) == LastOr(current, Eligible(Suggestions(lines)))
  {
    BodyIsFoldOfAcceptRule(current, lines);
    FoldIsLastEligible(current, Suggestions(lines));
  }

  /** A body logs one "Poll interval set" line per actual change of the
      interval, naming the new value, in body order, and nothing else. */
  lemma {:induction false} BodyLogIsChanges(current: int, lines: seq<string>)
    ensures BodyLog(current, lines) == Announce(Changes(current, Eligible(Suggestions(lines))))
  {
    if lines != [] {
      var init, x := lines[..|lines| - 1], lines[|lines| - 1];
      assert lines == init + [x];
      var e, ex := Eligible(Suggestions(init)), Eligible(LineSuggestion(x));
      var prev := BodyInterval(current, init);
      BodyIntervalIsLastEligible(current, init);
      SuggestionsAppend(init, [x]);
      assert Suggestions([x]) == LineSuggestion(x);
      EligibleAppend(Suggestions(init), LineSuggestion(x));
      calc {
        BodyLog(current, lines);
        BodyLog(current, init) + LineLog(prev, x);
        { BodyLogIsChanges(current, init); LineLogIsChanges(prev, x); }
        Announce(Changes(current, e)) + Announce(Changes(prev, ex));
        { AnnounceAppend(Changes(current, e), Changes(prev, ex)); }
        Announce(Changes(current, e) + Changes(LastOr(current, e), ex));
        { ChangesAppend(current, e, ex); }
        Announce(Changes(current, e + ex));
      }
    }
  }

  lemma LineLogIsChanges(current: int, line: string)
    ensures LineLog(current, line) == Announce(Changes(current, Eligible(LineSuggestion(line))))
  {
    match Parse(line)
    case SetPoll(arg) =>
      var v := Suggestion(arg);
      assert LineSuggestion(line) == [v];
      assert Eligible([v]) == if Clamp(v) >= MinPollInterval then [Clamp(v)] else [];
    case _ =>
  }

  /** A response other than 200 leaves the interval alone and logs only the
      error, whatever its body says. */
  lemma ErrorResponseIgnoresBody(current: int, code: string, body: string, other: string)
    requires ToI(code) != OkStatus
    ensures ResponseInterval(current, code, body) == current
    ensures ResponseLog(current, code, body) == [ErrorResponse(code)]
    ensures ResponseInterval(current, code, body) == ResponseInterval(current, code, other)
  {
  }

  /** A 200 response in terms of the reference definitions: the interval
      afterwards is the last eligible suggestion of its body, and the log
      announces each eligible suggestion that differs from the one before. */
  lemma OkResponseIsLastEligible(current: int, code: string, body: string)
    requires ToI(code) == OkStatus
    ensures ResponseInterval(current, code, body) == LastOr(current, Eligible(Suggestions(Lines(body))))
    ensures ResponseLog(current, code, body) == Announce(Changes(current, Eligible(Suggestions(Lines(body)))))
  {
    BodyIntervalIsLastEligible(current, Lines(body));
    BodyLogIsChanges(current, Lines(body));
  }

  /** After a response the interval is either unchanged or within
      [30, 1200]; so a worker in range stays in range, and the interval never
      rises above 1200 unless it started there. */
  lemma ResponseStaysInRange(current: int, code: string, body: string)
    ensures ResponseInterval(current, code, body) == current || InRange(ResponseInterval(current, code, body))
    ensures InRange(current) ==> InRange(ResponseInterval(current, code, body))
    ensures current <= MaxPollInterval ==> ResponseInterval(current, code, body) <= MaxPollInterval
  {
    if ToI(code) == OkStatus {
      BodyIntervalIsLastEligible(current, Lines(body));
    }
  }

  /** A run sleeps once per response; every sleep it adds, and the interval
      it ends with, is the starting interval or lies in [30, 1200]; a run that
      starts in range sleeps, and ends, in range. */
  lemma {:induction false} RunStaysInRange(t: Trace, responses: seq<Response>)
    ensures var u := RunFrom(t, responses);
      && |u.sleeps| == |t.sleeps| + |responses|
      && u.sleeps[..|t.sleeps|] == t.sleeps
      && (u.interval == t.interval || InRange(u.interval))
      && (forall i :: |t.sleeps| <= i < |u.sleeps| ==> u.sleeps[i] == t.interval || InRange(u.sleeps[i]))
      && (InRange(t.interval) ==> InRange(u.interval) && forall i :: |t.sleeps| <= i < |u.sleeps| ==> InRange(u.sleeps[i]))
  {
    if responses != [] {
      var init, last := responses[..|responses| - 1], responses[|responses| - 1];
      RunStaysInRange(t, init);
      var mid := RunFrom(t, init);
      ResponseStaysInRange(mid.interval, last.code, last.body);
      var u := Pass(mid, last);
      assert u.sleeps == mid.sleeps + [u.interval];
    }
  }
}
