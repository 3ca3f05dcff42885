/**
 * The three pieces of Ruby's core library that the worker's response handling
 * leans on, stated exactly: String#strip, String#split with a one-character
 * string separator (limit 0), and String#to_i (base 10). Integer#to_s is given
 * as the partner of to_i.
 */
module RubyText {

  // ---------------------------------------------------------------------------
  // String#strip
  // ---------------------------------------------------------------------------

  /** What String#strip removes at either end: NUL and the ASCII white space
      characters space, \t, \n, \v, \f and \r (code points 9 to 13). */
  predicate IsStripSpace(c: char) {
    c == '\0' || c == ' ' || ('\t' <= c <= '\r')
  }

  predicate AllStripSpace(s: string) {
    forall i :: 0 <= i < |s| ==> IsStripSpace(s[i])
  }

  /** Removes the white space at the head of `s`: the result is the suffix of
      `s` that begins at its first non-space character. */
  function LStrip(s: string): (r: string)
    ensures |r| <= |s| && r == s[|s| - |r|..]
    ensures AllStripSpace(s[..|s| - |r|])
    ensures r == [] || !IsStripSpace(r[0])
  {
    if |s| > 0 && IsStripSpace(s[0]) then LStrip(s[1..]) else s
  }

  /** Removes the white space at the tail of `s`: the result is the prefix of
      `s` that ends at its last non-space character. */
  function RStrip(s: string): (r: string)
    ensures |r| <= |s| && r == s[..|r|]
    ensures AllStripSpace(s[|r|..])
    ensures r == [] || !IsStripSpace(r[|r| - 1])
  {
    if |s| > 0 && IsStripSpace(s[|s| - 1]) then
      var r := RStrip(s[..|s| - 1]);
      assert s[|r|..] == s[..|s| - 1][|r|..] + [s[|s| - 1]];
      r
    else s
  }

  /** String#strip. */
  function Strip(s: string): (r: string)
    ensures r == [] <==> AllStripSpace(s)
    ensures r != [] ==> !IsStripSpace(r[0]) && !IsStripSpace(r[|r| - 1])
    ensures |r| <= |s|
  {
    var l := LStrip(s);
    var r := RStrip(l);
    assert r != [] ==> r[0] == l[0];
    assert r == [] ==> AllStripSpace(l) && s == s[..|s| - |l|] + l;
    r
  }

  /** The white space that strip removes at the head of `s`. */
  function LeadingSpace(s: string): string {
    s[..|s| - |LStrip(s)|]
  }

  /** The white space that strip removes at the tail of `s`. */
  function TrailingSpace(s: string): string {
    LStrip(s)[|Strip(s)|..]
  }

  /** What strip returns is the line itself with the white space at its two
      ends cut off: `s` is white space, then the result, then white space. */
  lemma StripTrimsEnds(s: string)
    ensures s == LeadingSpace(s) + Strip(s) + TrailingSpace(s)
    ensures AllStripSpace(LeadingSpace(s)) && AllStripSpace(TrailingSpace(s))
  {
    var l, r := LStrip(s), Strip(s);
    assert r == RStrip(l);
    SplitThree(s, LeadingSpace(s), l, r, TrailingSpace(s));
  }

  /** `s` cut into a prefix `pre` and the rest `l`, and `l` cut into `r` and
      the rest `post`, is `pre`, then `r`, then `post`. */
  lemma SplitThree(s: string, pre: string, l: string, r: string, post: string)
    requires |l| <= |s| && pre == s[..|s| - |l|] && l == s[|s| - |l|..]
    requires |r| <= |l| && r == l[..|r|] && post == l[|r|..]
    ensures s == pre + r + post
  {
    assert s == pre + l;
    assert l == r + post;
    AppendAssociates(pre, r, post);
  }

  /** Concatenation associates. */
  lemma AppendAssociates<T>(a: seq<T>, b: seq<T>, c: seq<T>)
    ensures a + b + c == a + (b + c)
  {
  }

  /** A line that neither starts nor ends with white space strips to itself. */
  lemma StripOfTrimmed(s: string)
    requires s != [] && !IsStripSpace(s[0]) && !IsStripSpace(s[|s| - 1])
    ensures Strip(s) == s
  {
    assert LStrip(s) == s;
    assert RStrip(s) == s;
  }

  lemma {:induction false} LStripSkipsPrefix(pre: string, x: string)
    requires AllStripSpace(pre)
    ensures LStrip(pre + x) == LStrip(x)
  {
    if pre != [] {
      var s := pre + x;
      assert s[0] == pre[0] && IsStripSpace(s[0]);
      assert s[1..] == pre[1..] + x;
      assert LStrip(s) == LStrip(s[1..]);
      LStripSkipsPrefix(pre[1..], x);
    } else {
      assert pre + x == x;
    }
  }

  lemma {:induction false} RStripSkipsSuffix(x: string, post: string)
    requires AllStripSpace(post)
    ensures RStrip(x + post) == RStrip(x)
  {
    if post != [] {
      var n := |post| - 1;
      var s := x + post;
      assert s[|s| - 1] == post[n] && IsStripSpace(s[|s| - 1]);
      assert s[..|s| - 1] == x + post[..n];
      assert RStrip(s) == RStrip(s[..|s| - 1]);
      RStripSkipsSuffix(x, post[..n]);
    } else {
      assert x + post == x;
    }
  }

  /** Once the head of `x` holds a non-space character, text appended after
      `x` passes through LStrip untouched. */
  lemma {:induction false} LStripAppend(x: string, y: string)
    requires LStrip(x) != []
    ensures LStrip(x + y) == LStrip(x) + y
  {
    if IsStripSpace(x[0]) {
      assert (x + y)[1..] == x[1..] + y;
      LStripAppend(x[1..], y);
    }
  }

  /** White space padding on either side does not change what strip returns. */
  lemma StripIgnoresPadding(pre: string, s: string, post: string)
    requires AllStripSpace(pre) && AllStripSpace(post)
    ensures Strip(pre + s + post) == Strip(s)
  {
    assert pre + s + post == pre + (s + post);
    LStripSkipsPrefix(pre, s + post);
    if LStrip(s) != [] {
      LStripAppend(s, post);
      RStripSkipsSuffix(LStrip(s), post);
    } else {
      assert AllStripSpace(s);
      assert AllStripSpace(pre + s + post);
    }
  }

  // ---------------------------------------------------------------------------
  // String#split with a one-character separator
  // ---------------------------------------------------------------------------

  /** The inverse of splitting: the parts glued back with the separator. */
  function Join(parts: seq<string>, sep: char): (s: string)
    requires |parts| >= 1
  {
    if |parts| == 1 then parts[0] else parts[0] + [sep] + Join(parts[1..], sep)
  }

  /** A join starts with the first character of its first field... */
  lemma JoinHead(parts: seq<string>, sep: char)
    requires |parts| >= 1 && parts[0] != []
    ensures Join(parts, sep) != [] && Join(parts, sep)[0] == parts[0][0]
  {
  }

  /** ...and ends with the last character of its last field. */
  lemma {:induction false} JoinLast(parts: seq<string>, sep: char)
    requires |parts| >= 1 && parts[|parts| - 1] != []
    ensures var s, f := Join(parts, sep), parts[|parts| - 1];
      s != [] && s[|s| - 1] == f[|f| - 1]
  {
    if |parts| > 1 {
      JoinLast(parts[1..], sep);
      var rest := Join(parts[1..], sep);
      assert Join(parts, sep) == parts[0] + [sep] + rest;
    }
  }

  /** A join whose first field does not start, and whose last field does not
      end, with white space strips to itself. */
  lemma JoinIsTrimmed(parts: seq<string>, sep: char)
    requires |parts| >= 1 && parts[0] != [] && !IsStripSpace(parts[0][0])
    requires var last := parts[|parts| - 1]; last != [] && !IsStripSpace(last[|last| - 1])
    ensures Join(parts, sep) != [] && Strip(Join(parts, sep)) == Join(parts, sep)
  {
    JoinHead(parts, sep);
    JoinLast(parts, sep);
    StripOfTrimmed(Join(parts, sep));
  }

  /** Cuts `s` at every occurrence of `sep`, keeping every field, empty ones
      included. */
  function RawSplit(s: string, sep: char): (parts: seq<string>)
    ensures |parts| >= 1
    ensures forall i :: 0 <= i < |parts| ==> sep !in parts[i]
    ensures (|parts| == 1) == (sep !in s)
    ensures (parts[|parts| - 1] == []) == (s == [] || s[|s| - 1] == sep)
  {
    if s == [] then [[]]
    else
      var rest := RawSplit(s[1..], sep);
      assert s == [s[0]] + s[1..];
      if s[0] == sep then [[]] + rest
      else [[s[0]] + rest[0]] + rest[1..]
  }

  /** Gluing the fields back with the separator gives the string that was cut. */
  lemma {:induction false} RawSplitJoinsBack(s: string, sep: char)
    ensures Join(RawSplit(s, sep), sep) == s
  {
    if s != [] {
      var c, t := s[0], s[1..];
      var rest := RawSplit(t, sep);
      assert s == [c] + t;
      assert Join(rest, sep) == t by {
        RawSplitJoinsBack(t, sep);
      }
      if c == sep {
        calc {
          Join(RawSplit(s, sep), sep);
        == { RawSplitCons(c, t, sep); }
          Join([[]] + rest, sep);
        == { JoinCons([], rest, sep); }
          [] + [sep] + Join(rest, sep);
        }
      } else {
        calc {
          Join(RawSplit(s, sep), sep);
        == { RawSplitCons(c, t, sep); }
          Join([[c] + rest[0]] + rest[1..], sep);
        == { JoinPrepend(c, rest, sep); }
          [c] + Join(rest, sep);
        }
      }
    }
  }

  lemma JoinCons(first: string, parts: seq<string>, sep: char)
    requires |parts| >= 1
    ensures Join([first] + parts, sep) == first + [sep] + Join(parts, sep)
  {
    assert ([first] + parts)[1..] == parts;
  }

  /** Putting a character before the first field puts it before the join. */
  lemma JoinPrepend(c: char, parts: seq<string>, sep: char)
    requires |parts| >= 1
    ensures Join([[c] + parts[0]] + parts[1..], sep) == [c] + Join(parts, sep)
  {
    var q := [[c] + parts[0]] + parts[1..];
    assert q[0] == [c] + parts[0] && q[1..] == parts[1..];
    if |parts| > 1 {
      assert Join(q, sep) == ([c] + parts[0]) + [sep] + Join(parts[1..], sep);
      assert Join(parts, sep) == parts[0] + [sep] + Join(parts[1..], sep);
    }
  }

  /** Splitting a join of separator-free fields gives the fields back. */
  lemma {:induction false} RawSplitJoin(parts: seq<string>, sep: char)
    requires |parts| >= 1
    requires forall i :: 0 <= i < |parts| ==> sep !in parts[i]
    ensures RawSplit(Join(parts, sep), sep) == parts
  {
    if |parts| == 1 {
      RawSplitOfField(parts[0], sep);
    } else {
      RawSplitJoin(parts[1..], sep);
      RawSplitFieldThenSep(parts[0], Join(parts[1..], sep), sep);
      assert parts == [parts[0]] + parts[1..];
    }
  }

  lemma {:induction false} RawSplitOfField(f: string, sep: char)
    requires sep !in f
    ensures RawSplit(f, sep) == [f]
  {
    if f != [] {
      RawSplitOfField(f[1..], sep);
      assert f == [f[0]] + f[1..];
    }
  }

  lemma {:induction false} RawSplitFieldThenSep(f: string, rest: string, sep: char)
    requires sep !in f
    ensures RawSplit(f + [sep] + rest, sep) == [f] + RawSplit(rest, sep)
  {
    if f == [] {
      assert f + [sep] + rest == [sep] + rest;
      RawSplitCons(sep, rest, sep);
    } else {
      var tail := f[1..] + [sep] + rest;
      assert f + [sep] + rest == [f[0]] + tail;
      var inner := RawSplit(tail, sep);
      assert inner == [f[1..]] + RawSplit(rest, sep) by {
        RawSplitFieldThenSep(f[1..], rest, sep);
      }
      assert RawSplit([f[0]] + tail, sep) == [[f[0]] + inner[0]] + inner[1..] by {
        RawSplitCons(f[0], tail, sep);
      }
      assert inner[0] == f[1..] && inner[1..] == RawSplit(rest, sep);
      assert [f[0]] + f[1..] == f;
    }
  }

  /** Cutting a string that starts with `c`: one step of RawSplit. */
  lemma RawSplitCons(c: char, s: string, sep: char)
    ensures var rest := RawSplit(s, sep);
      RawSplit([c] + s, sep) == if c == sep then [[]] + rest else [[c] + rest[0]] + rest[1..]
  {
    assert ([c] + s)[0] == c && ([c] + s)[1..] == s;
  }

  /** What `split` does with limit 0 after cutting: trailing empty fields are
      removed (so the split of an empty string is the empty sequence). */
  function DropTrailingEmpty(parts: seq<string>): (r: seq<string>)
    ensures |r| <= |parts| && r == parts[..|r|]
    ensures r == [] || r[|r| - 1] != []
    ensures forall i :: |r| <= i < |parts| ==> parts[i] == []
  {
    if |parts| == 0 then []
    else if parts[|parts| - 1] == [] then DropTrailingEmpty(parts[..|parts| - 1])
    else parts
  }

  /** String#split(sep) for a one-character string `sep` other than " ". */
  function Split(s: string, sep: char): (r: seq<string>)
    ensures forall i :: 0 <= i < |r| ==> sep !in r[i]
    ensures |r| <= |RawSplit(s, sep)|
    ensures r == RawSplit(s, sep)[..|r|]
    ensures forall i :: |r| <= i < |RawSplit(s, sep)| ==> RawSplit(s, sep)[i] == []
    ensures s != [] && s[|s| - 1] != sep ==> r == RawSplit(s, sep)
    ensures r == [] || r[|r| - 1] != []
  {
    DropTrailingEmpty(RawSplit(s, sep))
  }

  /** Splitting a join whose last field is not empty gives the fields back. */
  lemma SplitJoin(parts: seq<string>, sep: char)
    requires |parts| >= 1 && parts[|parts| - 1] != []
    requires forall i :: 0 <= i < |parts| ==> sep !in parts[i]
    ensures Split(Join(parts, sep), sep) == parts
  {
    RawSplitJoin(parts, sep);
  }

  // ---------------------------------------------------------------------------
  // String#to_i and Integer#to_s
  // ---------------------------------------------------------------------------

  /** The white space that String#to_i skips before the number (C isspace). */
  predicate IsCSpace(c: char) {
    c == ' ' || ('\t' <= c <= '\r')
  }

  predicate IsDigit(c: char) {
    '0' <= c <= '9'
  }

  function DigitValue(c: char): (d: nat)
    requires IsDigit(c)
    ensures d < 10
  {
    c as int - '0' as int
  }

  function DigitChar(d: nat): (c: char)
    requires d < 10
    ensures IsDigit(c) && DigitValue(c) == d
  {
    ('0' as int + d) as char
  }

  function SkipCSpace(s: string): (r: string)
    ensures |r| <= |s| && r == s[|s| - |r|..]
    ensures r == [] || !IsCSpace(r[0])
  {
    if |s| > 0 && IsCSpace(s[0]) then SkipCSpace(s[1..]) else s
  }

  /** The digits that to_i reads at the start of `s`: a digit, then digits each
      possibly preceded by one underscore; the run ends at anything else. */
  function DigitRun(s: string): (ds: string)
    ensures forall i :: 0 <= i < |ds| ==> IsDigit(ds[i])
    ensures ds == [] <==> (s == [] || !IsDigit(s[0]))
  {
    if |s| > 0 && IsDigit(s[0]) then [s[0]] + DigitRunTail(s[1..]) else []
  }

  function DigitRunTail(s: string): (ds: string)
    ensures forall i :: 0 <= i < |ds| ==> IsDigit(ds[i])
  {
    if |s| > 0 && IsDigit(s[0]) then [s[0]] + DigitRunTail(s[1..])
    else if |s| > 1 && s[0] == '_' && IsDigit(s[1]) then [s[1]] + DigitRunTail(s[2..])
    else []
  }

  predicate AllDigits(s: string) {
    forall i :: 0 <= i < |s| ==> IsDigit(s[i])
  }

  /** The number a string of decimal digits denotes. */
  function Value(ds: string): (n: nat)
    requires AllDigits(ds)
  {
    if ds == [] then 0 else Value(ds[..|ds| - 1]) * 10 + DigitValue(ds[|ds| - 1])
  }

  /** The unsigned part of to_i: an optional "0d"/"0D" radix prefix, then the
      digit run. */
  function Magnitude(u: string): nat {
    var w := if |u| >= 2 && u[0] == '0' && (u[1] == 'd' || u[1] == 'D') then u[2..] else u;
    Value(DigitRun(w))
  }

  /** String#to_i: leading white space, at most one sign, then the magnitude;
      text that does not start a number gives 0. */
  function ToI(s: string): int {
    SignedMagnitude(SkipCSpace(s))
  }

  /** What to_i reads once the leading white space is skipped. */
  function SignedMagnitude(t: string): int {
    if |t| > 0 && t[0] == '-' then -(Magnitude(t[1..]) as int)
    else if |t| > 0 && t[0] == '+' then Magnitude(t[1..])
    else Magnitude(t)
  }

  /** The decimal digits of `n` without leading zeros (Integer#to_s). */
  function NatDigits(n: nat): (ds: string)
    ensures |ds| >= 1 && AllDigits(ds)
    ensures ds[0] == '0' ==> n == 0 && |ds| == 1
  {
    if n < 10 then [DigitChar(n)] else NatDigits(n / 10) + [DigitChar(n % 10)]
  }

  /** Integer#to_s. */
  function Decimal(n: int): (s: string)
    ensures |s| >= 1 && ('\t' !in s) && ('\n' !in s)
    ensures !IsStripSpace(s[0]) && !IsStripSpace(s[|s| - 1])
  {
    if n < 0 then "-" + NatDigits(-n) else NatDigits(n)
  }

  lemma {:induction false} ValueOfNatDigits(n: nat)
    ensures Value(NatDigits(n)) == n
  {
    if n >= 10 {
      var ds := NatDigits(n);
      assert ds[..|ds| - 1] == NatDigits(n / 10);
      ValueOfNatDigits(n / 10);
    }
  }

  lemma {:induction false} DigitRunTailOfDigits(s: string)
    requires AllDigits(s)
    ensures DigitRunTail(s) == s
  {
    if s != [] {
      DigitRunTailOfDigits(s[1..]);
      assert s == [s[0]] + s[1..];
    }
  }

  lemma DigitRunOfDigits(s: string)
    requires AllDigits(s) && s != []
    ensures DigitRun(s) == s
  {
    DigitRunTailOfDigits(s[1..]);
    assert s == [s[0]] + s[1..];
  }

  /** to_i reads back what to_s writes, for every integer. */
  lemma DecimalRoundTrip(n: int)
    ensures ToI(Decimal(n)) == n
  {
    var m: nat := if n < 0 then -n else n;
    ValueOfNatDigits(m);
    if n < 0 {
      ToIOfNegatedDigits(NatDigits(m));
    } else {
      ToIOfDigits(NatDigits(m));
    }
  }

  /** A run of digits is read as the number it denotes... */
  lemma ToIOfDigits(ds: string)
    requires AllDigits(ds) && ds != []
    ensures ToI(ds) == Value(ds)
  {
    assert ToI(ds) == Magnitude(ds) by {
      assert IsDigit(ds[0]);
      assert SkipCSpace(ds) == ds;
    }
    MagnitudeOfDigits(ds);
  }

  /** ...and, after a minus sign, as its negation. */
  lemma ToIOfNegatedDigits(ds: string)
    requires AllDigits(ds) && ds != []
    ensures ToI("-" + ds) == -(Value(ds) as int)
  {
    MagnitudeOfDigits(ds);
    var s := "-" + ds;
    assert s[0] == '-' && s[1..] == ds;
    assert SkipCSpace(s) == s;
  }

  lemma MagnitudeOfDigits(ds: string)
    requires AllDigits(ds) && ds != []
    ensures Magnitude(ds) == Value(ds)
  {
    DigitRunOfDigits(ds);
  }

  /** White space before a number does not change what to_i reads. */
  lemma ToISkipsLeadingSpace(pad: string, s: string)
    requires forall i :: 0 <= i < |pad| ==> IsCSpace(pad[i])
    ensures ToI(pad + s) == ToI(s)
  {
    SkipCSpacePrefix(pad, s);
  }

  lemma {:induction false} SkipCSpacePrefix(pad: string, s: string)
    requires forall i :: 0 <= i < |pad| ==> IsCSpace(pad[i])
    ensures SkipCSpace(pad + s) == SkipCSpace(s)
  {
    if pad != [] {
      var t := pad + s;
      assert t[0] == pad[0] && IsCSpace(t[0]);
      assert t[1..] == pad[1..] + s;
      assert SkipCSpace(t) == SkipCSpace(t[1..]);
      SkipCSpacePrefix(pad[1..], s);
    } else {
      assert pad + s == s;
    }
  }

  /** A string that does not start with white space, a sign or a digit reads
      as 0 (in particular the empty string). */
  lemma ToIOfNonNumeric(s: string)
    requires s == [] || !(IsCSpace(s[0]) || s[0] == '-' || s[0] == '+' || IsDigit(s[0]))
    ensures ToI(s) == 0
  {
    assert SkipCSpace(s) == s;
    assert DigitRun(s) == [];
    assert Magnitude(s) == Value([]);
  }

  /** A sign without a digit right after it reads as 0: "+", "-", "+x" and
      "- 5" all do. */
  lemma ToIOfSignWithoutDigits(sign: string, rest: string)
    requires sign == "+" || sign == "-"
    requires rest == [] || !IsDigit(rest[0])
    ensures ToI(sign + rest) == 0
  {
    var s := sign + rest;
    assert s[0] == sign[0] && s[1..] == rest;
    NoLeadingSpace(s);
    assert DigitRun(rest) == [];
    assert rest == [] || !(|rest| >= 2 && rest[0] == '0');
    assert Magnitude(rest) == 0;
  }

  // ---------------------------------------------------------------------------
  // A number followed by other text: to_i reads the leading number only
  // ---------------------------------------------------------------------------

  /** `rest` does not continue a digit run: it is empty, or starts with
      neither a digit nor an underscore followed by a digit. */
  predicate EndsNumber(rest: string) {
    rest == [] || (!IsDigit(rest[0]) && !(|rest| > 1 && rest[0] == '_' && IsDigit(rest[1])))
  }

  /** A sign as to_i accepts it: none, "+" or "-". */
  predicate IsSign(sign: string) {
    sign == "" || sign == "+" || sign == "-"
  }

  /** The value of `ds` under `sign`. */
  function Signed(sign: string, ds: string): int
    requires AllDigits(ds)
  {
    if sign == "-" then -(Value(ds) as int) else Value(ds)
  }

  /** Digits, then text that does not continue them, read as those digits
      (the radix prefix aside): "45s" and "45 " read as 45, "+45" as 45,
      "-45x" as -45. */
  lemma ToIOfLeadingNumber(sign: string, ds: string, rest: string)
    requires IsSign(sign) && AllDigits(ds) && ds != [] && EndsNumber(rest)
    requires !(ds == "0" && rest != [] && (rest[0] == 'd' || rest[0] == 'D'))
    ensures ToI(sign + ds + rest) == Signed(sign, ds)
  {
    var u := ds + rest;
    assert u[0] == ds[0];
    AppendAssociates(sign, ds, rest);
    SignedToI(sign, u);
    MagnitudeOfLeadingDigits(ds, rest);
  }

  /** After the radix prefix "0d" or "0D" the digits are read in base 10:
      "0d45" reads as 45. */
  lemma ToIOfRadixPrefix(sign: string, d: char, ds: string, rest: string)
    requires IsSign(sign) && (d == 'd' || d == 'D')
    requires AllDigits(ds) && ds != [] && EndsNumber(rest)
    ensures ToI(sign + ['0', d] + ds + rest) == Signed(sign, ds)
  {
    var u := ['0', d] + (ds + rest);
    assert u[0] == '0';
    AppendAssociates(sign + ['0', d], ds, rest);
    AppendAssociates(sign, ['0', d], ds + rest);
    SignedToI(sign, u);
    MagnitudeAfterPrefix(d, ds + rest);
    LeadingDigitRun(ds, rest);
  }

  /** A radix prefix with no digit after it reads as 0: "0d" and "0dx" do. */
  lemma ToIOfBareRadixPrefix(sign: string, d: char, rest: string)
    requires IsSign(sign) && (d == 'd' || d == 'D')
    requires rest == [] || !IsDigit(rest[0])
    ensures ToI(sign + ['0', d] + rest) == 0
  {
    var u := ['0', d] + rest;
    assert u[0] == '0';
    AppendAssociates(sign, ['0', d], rest);
    SignedToI(sign, u);
    assert Magnitude(u) == 0 by {
      MagnitudeAfterPrefix(d, rest);
      assert DigitRun(rest) == [];
    }
  }

  /** A single underscore between two digits is skipped: "4_5" reads as 45. */
  lemma ToIIgnoresUnderscore(sign: string, a: string, b: string, rest: string)
    requires IsSign(sign) && AllDigits(a) && a != [] && b != [] && IsDigit(b[0])
    ensures ToI(sign + a + "_" + b + rest) == ToI(sign + a + b + rest)
  {
    var w := "_" + b + rest;
    var u, v := a + w, a + (b + rest);
    assert u[0] == a[0] && v[0] == a[0];
    assert sign + a + "_" + b + rest == sign + u by {
      AppendAssociates(sign + a, "_", b);
      AppendAssociates(sign + a, "_" + b, rest);
      AppendAssociates(sign, a, w);
    }
    assert sign + a + b + rest == sign + v by {
      AppendAssociates(sign + a, b, rest);
      AppendAssociates(sign, a, b + rest);
    }
    SignedToI(sign, u);
    SignedToI(sign, v);
    MagnitudeSkipsUnderscore(a, b, rest);
  }

  lemma MagnitudeOfLeadingDigits(ds: string, rest: string)
    requires AllDigits(ds) && ds != [] && EndsNumber(rest)
    requires !(ds == "0" && rest != [] && (rest[0] == 'd' || rest[0] == 'D'))
    ensures Magnitude(ds + rest) == Value(ds)
  {
    var u := ds + rest;
    assert |u| >= 2 && u[0] == '0' ==> u[1] == if |ds| >= 2 then ds[1] else rest[0];
    assert |ds| == 1 ==> ds == [ds[0]];
    LeadingDigitRun(ds, rest);
  }

  lemma MagnitudeAfterPrefix(d: char, w: string)
    requires d == 'd' || d == 'D'
    ensures Magnitude(['0', d] + w) == Value(DigitRun(w))
  {
    assert (['0', d] + w)[2..] == w;
  }

  lemma MagnitudeSkipsUnderscore(a: string, b: string, rest: string)
    requires AllDigits(a) && a != [] && b != [] && IsDigit(b[0])
    ensures Magnitude(a + ("_" + b + rest)) == Magnitude(a + (b + rest))
  {
    var u, v := a + ("_" + b + rest), a + (b + rest);
    assert u[1] == if |a| >= 2 then a[1] else '_';
    assert v[1] == if |a| >= 2 then a[1] else b[0];
    DigitRunSkipsUnderscore(a, b, rest);
  }

  lemma DigitRunSkipsUnderscore(a: string, b: string, rest: string)
    requires AllDigits(a) && a != [] && b != [] && IsDigit(b[0])
    ensures DigitRun(a + ("_" + b + rest)) == DigitRun(a + (b + rest))
  {
    var w := "_" + b + rest;
    var u, v := a + w, a + (b + rest);
    assert u[0] == a[0] && u[1..] == a[1..] + w;
    assert v[0] == a[0] && v[1..] == a[1..] + (b + rest);
    DigitRunTailAfter(a[1..], w);
    DigitRunTailAfter(a[1..], b + rest);
    assert w[1..] == b + rest && w[0] == '_' && w[1] == b[0];
  }

  /** Once the white space is skipped, a sign chooses the sign of the
      magnitude of what follows it. */
  lemma SignedToI(sign: string, u: string)
    requires IsSign(sign) && u != [] && IsDigit(u[0])
    ensures ToI(sign + u) == if sign == "-" then -(Magnitude(u) as int) else Magnitude(u)
  {
    var s := sign + u;
    if sign == "" {
      assert s == u;
    } else {
      assert s[0] == sign[0] && s[1..] == u;
    }
    NoLeadingSpace(s);
  }

  lemma NoLeadingSpace(s: string)
    requires s != [] && !IsCSpace(s[0])
    ensures ToI(s) == SignedMagnitude(s)
  {
  }

  /** The digit run of digits followed by text that does not continue them is
      those digits. */
  lemma LeadingDigitRun(ds: string, rest: string)
    requires AllDigits(ds) && ds != [] && EndsNumber(rest)
    ensures DigitRun(ds + rest) == ds
  {
    var u := ds + rest;
    assert u[0] == ds[0] && u[1..] == ds[1..] + rest;
    DigitRunTailAfter(ds[1..], rest);
    assert DigitRunTail(rest) == [];
    assert ds == [ds[0]] + ds[1..];
  }

  lemma {:induction false} DigitRunTailAfter(a: string, s: string)
    requires AllDigits(a)
    ensures DigitRunTail(a + s) == a + DigitRunTail(s)
  {
    if a == [] {
      assert a + s == s;
    } else {
      var u := a + s;
      assert u[0] == a[0] && u[1..] == a[1..] + s;
      DigitRunTailAfter(a[1..], s);
      assert a == [a[0]] + a[1..];
    }
  }
}
