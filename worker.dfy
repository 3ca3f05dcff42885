/**
 * The worker itself: the configuration object whose poll interval the server
 * may change, and the polling loop that posts a work request, reads the
 * answer line by line and sleeps for the current interval. The network, the
 * clock and the interrupt are outside the model: each answer arrives as a
 * `Response` value, each sleep is recorded in `sleeps`, and the console is the
 * sequence `log`.
 */
module WorkerMain {
  import opened RubyText
  import opened PollNegotiation

  /** The process-wide settings. Only `pollInterval` ever changes after
      start-up. */
  class Config {
    var serverHost: string
    var builderName: string
    var pollInterval: int

    constructor ()
      ensures serverHost == "localhost:8080" && builderName == "bar"
      ensures pollInterval == DefaultPollInterval
    {
      serverHost := "localhost:8080";
      builderName := "bar";
      pollInterval := DefaultPollInterval;
    }
  }

  class Worker {
    const config: Config
    /** Everything written to the console, in order. */
    var log: seq<LogEntry>
    /** Every sleep, in seconds, in order. */
    var sleeps: seq<int>

    /** The interval stays between the minimum and the cap. */
    ghost predicate Valid()
      reads this, config
    {
      InRange(config.pollInterval)
    }

    /** Start-up: the default configuration, nothing logged, nothing slept. */
    constructor ()
      ensures fresh(config)
      ensures config.pollInterval == DefaultPollInterval
      ensures log == [] && sleeps == []
      ensures Valid()
    {
      config := new Config();
      log := [];
      sleeps := [];
    }

    /** Handles one line of a 200 response body. */
    method ApplyLine(line: string)
      modifies config`pollInterval, this`log
      ensures config.pollInterval == NextInterval(old(config.pollInterval), line)
      ensures log == old(log) + LineLog(old(config.pollInterval), line)
    {
      LineEffect(config.pollInterval, line);
      var stripped := Strip(line);
      if stripped == [] {
        return;
      }
      var fields := Split(stripped, '\t');
      ParseOfStripped(line, stripped, fields);
      var command, args := fields[0], fields[1..];
      if command == "SETPOLL" {
        var newInterval := Clamp(Suggestion(if |args| > 0 then Some(args[0]) else None));
        if newInterval >= MinPollInterval && config.pollInterval != newInterval {
          config.pollInterval := newInterval;
          log := log + [PollIntervalSet(config.pollInterval)];
        }
      }
    }

    /** Handles one answer to a work request: a status other than 200 is
        logged and its body ignored; otherwise the body's lines are handled
        in order. */
    method ProcessResponse(code: string, body: string)
      modifies config`pollInterval, this`log
      ensures config.pollInterval == ResponseInterval(old(config.pollInterval), code, body)
      ensures log == old(log) + ResponseLog(old(config.pollInterval), code, body)
      ensures old(Valid()) ==> Valid()
      ensures old(config.pollInterval) <= MaxPollInterval ==> config.pollInterval <= MaxPollInterval
    {
      ghost var start := config.pollInterval;
      if ToI(code) != OkStatus {
        log := log + [ErrorResponse(code)];
      } else {
        ApplyLines(Lines(body));
      }
      assert (InRange(start) ==> Valid())
          && (start <= MaxPollInterval ==> config.pollInterval <= MaxPollInterval) by {
        ResponseStaysInRange(start, code, body);
      }
    }

    /** Handles the lines of a 200 response body, in order. */
    method ApplyLines(lines: seq<string>)
      modifies config`pollInterval, this`log
      ensures config.pollInterval == BodyInterval(old(config.pollInterval), lines)
      ensures log == old(log) + BodyLog(old(config.pollInterval), lines)
    {
      ghost var start := config.pollInterval;
      assert lines[..0] == [];
      for i := 0 to |lines|
        invariant config.pollInterval == BodyInterval(start, lines[..i])
        invariant log == old(log) + BodyLog(start, lines[..i])
      {
        ghost var written := log;
        BodyStep(start, lines, i);
        ApplyLine(lines[i]);
        LogAdvance(start, lines, i, old(log), written, log);
      }
      assert lines[..|lines|] == lines;
    }

    /** What the loop has produced so far. */
    function State(): Trace
      reads this, config
    {
      Trace(config.pollInterval, log, sleeps)
    }

    /** One pass of the polling loop: handle the answer, then log and take the
        sleep for the interval now in force. */
    method Tick(response: Response)
      modifies config`pollInterval, this`log, this`sleeps
      ensures State() == Pass(old(State()), response)
      ensures old(Valid()) ==> Valid()
    {
      ProcessResponse(response.code, response.body);
      log := log + [Sleeping(config.pollInterval)];
      sleeps := sleeps + [config.pollInterval];
    }

    /** The polling loop, run until the interrupt arrives; `responses` are the
        server's answers to the passes begun before it does. */
    method Run(responses: seq<Response>)
      modifies config`pollInterval, this`log, this`sleeps
      ensures State() == RunFrom(old(State()), responses)
      ensures old(Valid()) ==> Valid()
    {
      ghost var start := State();
      var n := 0;
      assert responses[..0] == [];
      while n < |responses|
        invariant 0 <= n <= |responses|
        invariant State() == RunFrom(start, responses[..n])
      {
        RunStep(start, responses, n);
        Tick(responses[n]);
        n := n + 1;
      }
      assert responses[..n] == responses;
      RunStaysInRange(start, responses);
    }
  }
}
