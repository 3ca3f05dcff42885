/**
 * What the worker makes of typical answers from the server: one SETPOLL line
 * above the cap, below the minimum or in range, padded with white space, and
 * two SETPOLL lines in one body.
 */
module Scenarios {
  import opened RubyText
  import opened PollNegotiation

  /** The status code "200" reads as 200. */
  lemma OkCodeReads()
    ensures ToI("200") == OkStatus
  {
    DecimalRoundTrip(200);
    Decimal200();
  }

  lemma Decimal200()
    ensures Decimal(200) == "200"
  {
    assert NatDigits(2) == "2";
    assert NatDigits(20) == NatDigits(2) + "0";
  }

  /** How a server writes a suggestion of 5000 seconds. */
  lemma SetPollLine5000()
    ensures SetPollLine(5000) == "SETPOLL\t5000"
  {
    assert Decimal(5000) == "5000";
  }

  /** A 200 answer whose body is the single line suggesting `n` seconds is
      handled as that one line, and that line reads as the suggestion `n`. */
  lemma SinglePollAnswer(code: string, current: int, n: int)
    requires ToI(code) == OkStatus
    ensures ResponseInterval(current, code, SetPollLine(n)) == NextInterval(current, SetPollLine(n))
    ensures ResponseLog(current, code, SetPollLine(n)) == LineLog(current, SetPollLine(n))
    ensures Parse(SetPollLine(n)).SetPoll? && Suggestion(Parse(SetPollLine(n)).arg) == n
  {
    SetPollLineRoundTrip(n);
    OneLineBody(current, SetPollLine(n));
  }

  /** A suggestion at or above twenty minutes sets the interval to twenty
      minutes, announced unless it was already that. */
  lemma SuggestionAboveCapIsCapped(code: string, current: int, n: int)
    requires ToI(code) == OkStatus
    requires n >= MaxPollInterval
    ensures ResponseInterval(current, code, SetPollLine(n)) == MaxPollInterval
    ensures ResponseLog(current, code, SetPollLine(n))
         == if current == MaxPollInterval then [] else [PollIntervalSet(MaxPollInterval)]
  {
    SinglePollAnswer(code, current, n);
    LineEffect(current, SetPollLine(n));
  }

  /** "SETPOLL\t5000" sets the interval to twenty minutes. */
  lemma SetPoll5000IsCapped(code: string, current: int)
    requires ToI(code) == OkStatus
    ensures ResponseInterval(current, code, "SETPOLL\t5000") == MaxPollInterval
  {
    SetPollLine5000();
    SuggestionAboveCapIsCapped(code, current, 5000);
  }

  /** A suggestion below thirty seconds changes nothing and writes nothing. */
  lemma SuggestionBelowMinimumIsIgnored(code: string, current: int, n: int)
    requires ToI(code) == OkStatus
    requires n < MinPollInterval
    ensures ResponseInterval(current, code, SetPollLine(n)) == current
    ensures ResponseLog(current, code, SetPollLine(n)) == []
  {
    SinglePollAnswer(code, current, n);
    LineEffect(current, SetPollLine(n));
  }

  /** A suggestion within range becomes the interval, and is announced exactly
      when it differs from the current one. */
  lemma SuggestionInRangeIsAdopted(code: string, current: int, n: int)
    requires ToI(code) == OkStatus
    requires InRange(n)
    ensures ResponseInterval(current, code, SetPollLine(n)) == n
    ensures ResponseLog(current, code, SetPollLine(n)) == if n == current then [] else [PollIntervalSet(n)]
  {
    SinglePollAnswer(code, current, n);
    LineEffect(current, SetPollLine(n));
  }

  /** A SETPOLL line without an argument suggests nil.to_i, that is 0, which
      is below the minimum: the line changes nothing. */
  lemma MissingArgumentIsIgnored(current: int, line: string)
    requires Parse(line) == SetPoll(None)
    ensures Suggestion(Parse(line).arg) == 0
    ensures NextInterval(current, line) == current && LineLog(current, line) == []
  {
    LineEffect(current, line);
  }

  /** "SETPOLL" alone is such a line. */
  lemma BareSetPollReads()
    ensures Parse("SETPOLL") == SetPoll(None)
  {
    assert Join(["SETPOLL"] + [], '\t') == "SETPOLL";
    ParseFields("SETPOLL", []);
  }

  /** An argument that does not start a number reads as 0, which is below
      the minimum: the line changes nothing. */
  lemma NonNumericSetPollIsIgnored(current: int, arg: string)
    requires arg != [] && '\t' !in arg && !IsStripSpace(arg[|arg| - 1])
    requires !(IsCSpace(arg[0]) || arg[0] == '-' || arg[0] == '+' || IsDigit(arg[0]))
    ensures Parse("SETPOLL\t" + arg) == SetPoll(Some(arg)) && Suggestion(Some(arg)) == 0
    ensures NextInterval(current, "SETPOLL\t" + arg) == current
    ensures LineLog(current, "SETPOLL\t" + arg) == []
  {
    SetPollArgLine(arg);
    ToIOfNonNumeric(arg);
  }

  /** An argument made of a sign with no digit right after it, such as "+x",
      also reads as 0: the line changes nothing. */
  lemma SignWithoutDigitsIsIgnored(current: int, sign: string, rest: string)
    requires (sign == "+" || sign == "-") && (rest == [] || !IsDigit(rest[0]))
    requires '\t' !in rest && (rest == [] || !IsStripSpace(rest[|rest| - 1]))
    ensures Parse("SETPOLL\t" + (sign + rest)) == SetPoll(Some(sign + rest))
    ensures Suggestion(Some(sign + rest)) == 0
    ensures NextInterval(current, "SETPOLL\t" + (sign + rest)) == current
    ensures LineLog(current, "SETPOLL\t" + (sign + rest)) == []
  {
    var arg := sign + rest;
    assert arg[|arg| - 1] == if rest == [] then sign[0] else rest[|rest| - 1];
    assert '\t' !in arg by {
      assert forall i :: 0 <= i < |arg| ==> arg[i] == if i == 0 then sign[0] else rest[i - 1];
    }
    SetPollArgLine(arg);
    ToIOfSignWithoutDigits(sign, rest);
  }

  /** A command other than SETPOLL, with or without arguments, is read as
      that command and changes nothing. */
  lemma OtherCommandIsIgnored(current: int, command: string, args: seq<string>)
    requires command != [] && command != "SETPOLL" && '\t' !in command
    requires !IsStripSpace(command[0])
    requires forall i :: 0 <= i < |args| ==> '\t' !in args[i]
    requires var last := if args == [] then command else args[|args| - 1];
      last != [] && !IsStripSpace(last[|last| - 1])
    ensures Parse(Join([command] + args, '\t')) == Other(command)
    ensures NextInterval(current, Join([command] + args, '\t')) == current
    ensures LineLog(current, Join([command] + args, '\t')) == []
  {
    ParseFields(command, args);
    LineEffect(current, Join([command] + args, '\t'));
  }

  /** SETPOLL is matched case-sensitively: "setpoll", a tab, "45" is another
      command. */
  lemma LowerCaseSetPollIsIgnored(current: int)
    ensures Parse("setpoll\t45") == Other("setpoll")
    ensures NextInterval(current, "setpoll\t45") == current
    ensures LineLog(current, "setpoll\t45") == []
  {
    assert Join(["setpoll"] + ["45"], '\t') == "setpoll\t45";
    OtherCommandIsIgnored(current, "setpoll", ["45"]);
  }

  /** to_i reads the number at the head of an argument and ignores what
      follows: in "SETPOLL\t45 \t60" the argument is "45 ", which suggests 45. */
  lemma TextAfterNumberIsIgnored()
    ensures Parse("SETPOLL\t45 \t60") == SetPoll(Some("45 "))
    ensures Suggestion(Some("45 ")) == 45
  {
    ThreeFieldLine();
    TrailingSpaceArgument();
  }

  lemma TrailingSpaceArgument()
    ensures ToI("45 ") == 45
  {
    var ds, rest := "45", " ";
    assert AllDigits(ds) && EndsNumber(rest) && ds != "0";
    ToIOfLeadingNumber("", ds, rest);
    assert "" + ds + rest == "45 ";
    Value45();
  }

  lemma ThreeFieldLine()
    ensures Parse("SETPOLL\t45 \t60") == SetPoll(Some("45 "))
  {
    var parts := ["SETPOLL", "45 ", "60"];
    assert parts[1..] == ["45 ", "60"] && parts[1..][1..] == ["60"];
    assert Join(["45 ", "60"], '\t') == "45 \t60";
    assert Join(parts, '\t') == "SETPOLL\t45 \t60";
    assert ["SETPOLL"] + ["45 ", "60"] == parts;
    ParseFields("SETPOLL", ["45 ", "60"]);
  }

  lemma Value45()
    ensures Value("45") == 45
  {
    assert "45"[..1] == "4" && "4"[..0] == [];
  }

  /** Only the first argument of a SETPOLL line counts: fields after it are
      ignored. */
  lemma FirstArgumentCounts(n: int, rest: seq<string>)
    requires forall i :: 0 <= i < |rest| ==> '\t' !in rest[i]
    requires rest != [] ==> rest[|rest| - 1] != [] && !IsStripSpace(rest[|rest| - 1][|rest[|rest| - 1]| - 1])
    ensures Parse(Join(["SETPOLL", Decimal(n)] + rest, '\t')) == SetPoll(Some(Decimal(n)))
    ensures Suggestion(Parse(Join(["SETPOLL", Decimal(n)] + rest, '\t')).arg) == n
  {
    var args := [Decimal(n)] + rest;
    assert ["SETPOLL", Decimal(n)] + rest == ["SETPOLL"] + args;
    forall i | 0 <= i < |args|
      ensures '\t' !in args[i]
    {
      if i > 0 {
        assert args[i] == rest[i - 1];
      }
    }
    assert args[|args| - 1] == if rest == [] then Decimal(n) else rest[|rest| - 1];
    ParseFields("SETPOLL", args);
    DecimalRoundTrip(n);
  }

  /** Two one-line bodies that read the same have the same effect. */
  lemma SameReadingSameEffect(code: string, current: int, x: string, y: string)
    requires x != [] && '\n' !in x && y != [] && '\n' !in y
    requires Parse(x) == Parse(y)
    ensures ResponseInterval(current, code, x) == ResponseInterval(current, code, y)
    ensures ResponseLog(current, code, x) == ResponseLog(current, code, y)
  {
    OneLineResponse(current, code, x);
    OneLineResponse(current, code, y);
    SameLineEffect(current, x, y);
  }

  lemma OneLineResponse(current: int, code: string, line: string)
    requires line != [] && '\n' !in line
    ensures ResponseInterval(current, code, line)
         == if ToI(code) != OkStatus then current else NextInterval(current, line)
    ensures ResponseLog(current, code, line)
         == if ToI(code) != OkStatus then [ErrorResponse(code)] else LineLog(current, line)
  {
    OneLineBody(current, line);
  }

  lemma SameLineEffect(current: int, x: string, y: string)
    requires Parse(x) == Parse(y)
    ensures NextInterval(current, x) == NextInterval(current, y)
    ensures LineLog(current, x) == LineLog(current, y)
  {
  }

  /** Blanks, tabs and carriage returns around a line (say, the "\r" of a
      CRLF line end) do not change what it does. */
  lemma PaddedLineIsReadAsBare(code: string, current: int, pre: string, n: int, post: string)
    requires AllStripSpace(pre) && AllStripSpace(post)
    requires '\n' !in pre && '\n' !in post
    ensures ResponseInterval(current, code, pre + SetPollLine(n) + post)
         == ResponseInterval(current, code, SetPollLine(n))
    ensures ResponseLog(current, code, pre + SetPollLine(n) + post)
         == ResponseLog(current, code, SetPollLine(n))
  {
    var line := SetPollLine(n);
    var padded := pre + line + post;
    ParseIgnoresPadding(pre, line, post);
    assert line != [];
    SameReadingSameEffect(code, current, padded, line);
  }

  /** The SETPOLL line for `n` suggests `n`. */
  lemma SetPollLineSuggests(n: int)
    ensures LineSuggestion(SetPollLine(n)) == [n]
  {
    SetPollLineRoundTrip(n);
  }

  /** A body of lines joined by line breaks: the last eligible of their
      suggestions is the interval afterwards, and the changes among them are
      announced. */
  lemma JoinedLinesBody(current: int, lines: seq<string>)
    requires |lines| >= 1 && lines[|lines| - 1] != []
    requires forall i :: 0 <= i < |lines| ==> '\n' !in lines[i]
    ensures var vs := Eligible(Suggestions(lines));
      && BodyInterval(current, Lines(Join(lines, '\n'))) == LastOr(current, vs)
      && BodyLog(current, Lines(Join(lines, '\n'))) == Announce(Changes(current, vs))
  {
    LinesOfJoin(lines);
    BodyIntervalIsLastEligible(current, lines);
    BodyLogIsChanges(current, lines);
  }

  /** The suggestions of two lines. */
  lemma SuggestionsOfTwo(x: string, y: string)
    ensures Suggestions([x, y]) == LineSuggestion(x) + LineSuggestion(y)
  {
    assert [x, y][1..] == [y] && [y][1..] == [];
    assert Suggestions([y]) == LineSuggestion(y) + Suggestions([]);
  }

  /** A body of a line suggesting `a` and then a line suggesting `b`. */
  lemma TwoSuggestionLines(current: int, x: string, y: string, a: int, b: int)
    requires '\n' !in x && '\n' !in y && y != []
    requires Suggestions([x, y]) == [a, b]
    ensures var lines := Lines(Join([x, y], '\n'));
      && BodyInterval(current, lines) == LastOr(current, Eligible([a, b]))
      && BodyLog(current, lines) == Announce(Changes(current, Eligible([a, b])))
  {
    JoinedLinesBody(current, [x, y]);
  }

  /** Two suggestions within range are both eligible; each is announced
      when it differs from the one before. */
  lemma TwoEligibleChanges(current: int, a: int, b: int)
    requires InRange(a) && InRange(b)
    ensures Eligible([a, b]) == [a, b]
    ensures Changes(current, [a, b]) == (if a != current then [a] else []) + (if b != a then [b] else [])
    ensures Announce(Changes(current, [a, b]))
         == (if a != current then [PollIntervalSet(a)] else []) + (if b != a then [PollIntervalSet(b)] else [])
  {
    assert [a, b][1..] == [b] && [b][1..] == [];
    assert Changes(current, [a, b]) == (if a != current then [a] else []) + Changes(a, [b]);
    assert Changes(a, [b]) == (if b != a then [b] else []) + Changes(b, []);
    var first := if a != current then [a] else [];
    var second := if b != a then [b] else [];
    AnnounceAppend(first, second);
    assert Announce(first) == if a != current then [PollIntervalSet(a)] else [];
    assert Announce(second) == if b != a then [PollIntervalSet(b)] else [];
  }

  /** Of two suggestions within range in one body, the second is the interval
      afterwards; each is announced when it differs from the one before. */
  lemma LastSuggestionWins(code: string, current: int, a: int, b: int)
    requires ToI(code) == OkStatus
    requires InRange(a) && InRange(b)
    ensures var body := Join([SetPollLine(a), SetPollLine(b)], '\n');
      && ResponseInterval(current, code, body) == b
      && ResponseLog(current, code, body)
         == (if a != current then [PollIntervalSet(a)] else [])
          + (if b != a then [PollIntervalSet(b)] else [])
  {
    var x, y := SetPollLine(a), SetPollLine(b);
    assert Suggestions([x, y]) == [a, b] by {
      SuggestionsOfTwo(x, y);
      SetPollLineSuggests(a);
      SetPollLineSuggests(b);
    }
    TwoSuggestionLines(current, x, y, a, b);
    TwoEligibleChanges(current, a, b);
  }
}
