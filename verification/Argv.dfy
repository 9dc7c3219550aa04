/** Splitting a verification command into arguments without a shell, and the quoting that
    it undoes (crates/mp/src/ac_verify.rs, crates/mp/src/install.rs). */
module Argv {
  import opened Prelude
  import opened Text

  predicate IsShellOperator(c: char) {
    || c == ';' || c == '|' || c == '&' || c == '<' || c == '>' || c == '$' || c == '`'
    || c == '(' || c == ')' || c == '\n' || c == '\r' || c == '\0'
  }

  predicate IsLineBreak(c: char) {
    c == '\n' || c == '\r'
  }

  predicate IsQuote(c: char) {
    c == '\'' || c == '"'
  }

  /** The two characters that a backslash may escape inside double quotes. */
  predicate IsDoubleEscapable(c: char) {
    c == '"' || c == '\\'
  }

  // ---------- Quoting, position by position ----------

  /** How a character is to be read: bare, inside quotes, or after a backslash. */
  datatype Mode = Bare | Single | Double | BareEscape | DoubleEscape

  function ModeAfter(m: Mode, c: char): Mode {
    match m
    case Bare => if c == '\'' then Single else if c == '"' then Double else if c == '\\' then BareEscape else Bare
    case Single => if c == '\'' then Bare else Single
    case Double => if c == '"' then Bare else if c == '\\' then DoubleEscape else Double
    case BareEscape => Bare
    case DoubleEscape => Double
  }

  /** The mode in which position `i` of `s` is read, if `s` starts in mode `m`. */
  function ModeAt(m: Mode, s: string, i: nat): Mode
    requires i <= |s|
    decreases s
  {
    if i == 0 then m else ModeAt(ModeAfter(m, s[0]), s[1..], i - 1)
  }

  /** The characters that are refused. Whitespace separates words before it can be seen as
      an operator, line breaks included. */
  predicate Offends(m: Mode, c: char) {
    match m
    case Bare => IsShellOperator(c) && !IsWhitespace(c)
    case Single => false
    case Double => IsShellOperator(c)
    case BareEscape => IsLineBreak(c)
    case DoubleEscape => !IsDoubleEscapable(c)
  }

  /** The characters that become part of an argument. */
  predicate Literal(m: Mode, c: char) {
    match m
    case Bare => !IsWhitespace(c) && !IsQuote(c) && c != '\\'
    case Single => c != '\''
    case Double => !IsDoubleEscapable(c)
    case BareEscape | DoubleEscape => true
  }

  function Literals(m: Mode, s: string): string
    decreases s
  {
    if s == "" then ""
    else (if Literal(m, s[0]) then [s[0]] else "") + Literals(ModeAfter(m, s[0]), s[1..])
  }

  // ---------- The specification of the parser ----------

  datatype Scan = Scan(mode: Mode, argv: seq<string>, current: string, started: bool)

  function Step(st: Scan, c: char): Scan {
    var next := st.(mode := ModeAfter(st.mode, c));
    if Literal(st.mode, c) then next.(current := st.current + [c], started := true)
    else if st.mode.Bare? && IsWhitespace(c) then
      if st.started then next.(argv := st.argv + [st.current], current := "", started := false) else next
    else if st.mode.Bare? && IsQuote(c) then next.(started := true)
    else next
  }

  function ScanFrom(st: Scan, s: string): Option<Scan>
    decreases s
  {
    if s == "" then Some(st)
    else if Offends(st.mode, s[0]) then None
    else ScanFrom(Step(st, s[0]), s[1..])
  }

  function Finish(r: Option<Scan>): Option<seq<string>> {
    if r.None? || !r.value.mode.Bare? then None
    else
      var argv := if r.value.started then r.value.argv + [r.value.current] else r.value.argv;
      if argv == [] then None else Some(argv)
  }

  const START := Scan(Bare, [], "", false)

  function Parsed(s: string): Option<seq<string>> {
    Finish(ScanFrom(START, s))
  }

  // ---------- The parser ----------

  /** parse_argv */
  method ParseArgv(command: string) returns (r: Option<seq<string>>)
    ensures r == Parsed(command)
  {
    var argv: seq<string>, current: string := [], "";
    var quote: Option<char> := None;
    var started := false;
    var i := 0;
    while i < |command|
      invariant 0 <= i <= |command|
      invariant quote.Some? ==> IsQuote(quote.value)
      invariant quote.None? && current != "" ==> started
      invariant Parsed(command) == Finish(ScanFrom(Scan(ModeOf(quote), argv, current, started), command[i..]))
      invariant quote.Some? ==> started
    {
      var c := command[i];
      i := i + 1;
      assert command[i - 1..][1..] == command[i..];
      if quote == Some('\'') {
        if c == '\'' {
          quote := None;
        } else {
          current := current + [c];
        }
      } else if quote == Some('"') {
        if c == '"' {
          quote := None;
        } else if c == '\\' {
          if i == |command| {
            return None;
          }
          var escaped := command[i];
          i := i + 1;
          assert command[i - 1..][1..] == command[i..];
          if IsDoubleEscapable(escaped) {
            current := current + [escaped];
          } else {
            return None;
          }
        } else if IsShellOperator(c) {
          return None;
        } else {
          current := current + [c];
        }
      } else if IsWhitespace(c) {
        if started {
          argv, current := argv + [current], "";
          started := false;
        }
      } else if c == '\'' || c == '"' {
        quote := Some(c);
        started := true;
      } else if c == '\\' {
        if i == |command| {
          return None;
        }
        var escaped := command[i];
        i := i + 1;
        assert command[i - 1..][1..] == command[i..];
        if IsLineBreak(escaped) {
          return None;
        }
        current := current + [escaped];
        started := true;
      } else if IsShellOperator(c) {
        return None;
      } else {
        current := current + [c];
        started := true;
      }
    }
    if quote.Some? {
      return None;
    }
    if started {
      argv := argv + [current];
    }
    if argv == [] {
      return None;
    }
    return Some(argv);
  }

  function ModeOf(quote: Option<char>): Mode {
    if quote == Some('\'') then Single else if quote == Some('"') then Double else Bare
  }

  // ---------- What is accepted ----------

  lemma {:induction false} ScanDecided(st: Scan, s: string)
    ensures ScanFrom(st, s).Some? <==> forall i :: 0 <= i < |s| ==> !Offends(ModeAt(st.mode, s, i), s[i])
    ensures ScanFrom(st, s).Some? ==> ScanFrom(st, s).value.mode == ModeAt(st.mode, s, |s|)
    decreases s
  {
    if s != "" {
      var m := ModeAfter(st.mode, s[0]);
      ScanDecided(Step(st, s[0]), s[1..]);
      assert forall i :: 0 < i <= |s| ==> ModeAt(st.mode, s, i) == ModeAt(m, s[1..], i - 1);
      assert ModeAt(st.mode, s, 0) == st.mode;
      if ScanFrom(st, s).Some? {
        forall i | 0 <= i < |s| ensures !Offends(ModeAt(st.mode, s, i), s[i]) {
          if i > 0 {
            assert !Offends(ModeAt(m, s[1..], i - 1), s[1..][i - 1]);
          }
        }
      } else if !Offends(st.mode, s[0]) {
        var i :| 0 <= i < |s[1..]| && Offends(ModeAt(m, s[1..], i), s[1..][i]);
        assert Offends(ModeAt(st.mode, s, i + 1), s[i + 1]);
      }
    }
  }

  /** Some character outside quotes is not whitespace. */
  predicate HasWord(m: Mode, s: string)
    decreases s
  {
    s != "" && ((m.Bare? && !IsWhitespace(s[0])) || HasWord(ModeAfter(m, s[0]), s[1..]))
  }

  predicate InWord(st: Scan) {
    st.started || st.argv != [] || st.mode.BareEscape?
  }

  lemma {:induction false} ScanFindsWords(st: Scan, s: string)
    requires ScanFrom(st, s).Some?
    requires st.mode.Single? || st.mode.Double? || st.mode.DoubleEscape? ==> InWord(st)
    ensures InWord(ScanFrom(st, s).value) <==> InWord(st) || HasWord(st.mode, s)
    decreases s
  {
    if s != "" {
      ScanFindsWords(Step(st, s[0]), s[1..]);
    }
  }

  /** A command is accepted exactly when no character offends where it stands, every quote
      and escape is finished, and there is at least one word. */
  lemma AcceptedIff(s: string)
    ensures Parsed(s).Some? <==>
      && (forall i :: 0 <= i < |s| ==> !Offends(ModeAt(Bare, s, i), s[i]))
      && ModeAt(Bare, s, |s|).Bare?
      && HasWord(Bare, s)
  {
    ScanDecided(START, s);
    if ScanFrom(START, s).Some? {
      ScanFindsWords(START, s);
    }
  }

  /** In an accepted command an operator stands inside single quotes or directly after an
      unquoted backslash; a line break stands inside single quotes or separates words. */
  lemma OperatorsAreInert(s: string, i: nat)
    requires Parsed(s).Some? && i < |s| && IsShellOperator(s[i])
    ensures var m := ModeAt(Bare, s, i);
      if IsLineBreak(s[i]) then m.Single? || m.Bare? else m.Single? || m.BareEscape?
  {
    AcceptedIff(s);
    assert !Offends(ModeAt(Bare, s, i), s[i]);
  }

  /** So every operator is quoted or escaped exactly when no line break separates words. */
  lemma OperatorsQuotedIff(s: string)
    requires Parsed(s).Some?
    ensures (forall i :: 0 <= i < |s| && IsShellOperator(s[i]) ==>
               ModeAt(Bare, s, i).Single? || ModeAt(Bare, s, i).BareEscape?)
       <==> (forall i :: 0 <= i < |s| && ModeAt(Bare, s, i).Bare? ==> !IsLineBreak(s[i]))
  {
    forall i | 0 <= i < |s| && IsShellOperator(s[i])
      ensures ModeAt(Bare, s, i).Single? || ModeAt(Bare, s, i).BareEscape? ||
        (ModeAt(Bare, s, i).Bare? && IsLineBreak(s[i]))
    {
      OperatorsAreInert(s, i);
    }
  }

  lemma ScanOne(st: Scan, c: char, rest: string)
    requires !Offends(st.mode, c)
    ensures ScanFrom(st, [c] + rest) == ScanFrom(Step(st, c), rest)
  {
    assert ([c] + rest)[1..] == rest;
  }

  /** The program's own list of operators holds the line feed, yet it passes unquoted. */
  lemma LineFeedSeparates()
    ensures IsShellOperator('\n') && Parsed("a\nb") == Some(["a", "b"])
  {
    LineFeedScan();
    assert "a\nb" == ['a'] + (['\n'] + (['b'] + "")) && ["a"] + ["b"] == ["a", "b"];
  }

  lemma LineFeedScan()
    ensures ScanFrom(START, ['a'] + (['\n'] + (['b'] + ""))) == Some(Scan(Bare, ["a"], "b", true))
  {
    var s1, s2, s3 := Scan(Bare, [], "a", true), Scan(Bare, ["a"], "", false), Scan(Bare, ["a"], "b", true);
    LetterStep(START, 'a');
    LetterStep(s2, 'b');
    assert "" + ['a'] == "a" && "" + ['b'] == "b" && [] + ["a"] == ["a"];
    assert !Offends(Bare, '\n') && Step(s1, '\n') == s2;
    ScanThree(START, 'a', s1, '\n', s2, 'b', s3);
  }

  lemma LetterStep(st: Scan, c: char)
    requires st.mode.Bare? && 'a' <= c <= 'z'
    ensures !Offends(st.mode, c) && Step(st, c) == st.(current := st.current + [c], started := true)
  {}

  lemma ScanThree(st: Scan, c1: char, s1: Scan, c2: char, s2: Scan, c3: char, s3: Scan)
    requires !Offends(st.mode, c1) && Step(st, c1) == s1
    requires !Offends(s1.mode, c2) && Step(s1, c2) == s2
    requires !Offends(s2.mode, c3) && Step(s2, c3) == s3
    ensures ScanFrom(st, [c1] + ([c2] + ([c3] + ""))) == Some(s3)
  {
    ScanOne(st, c1, [c2] + ([c3] + ""));
    ScanOne(s1, c2, [c3] + "");
    ScanOne(s2, c3, "");
  }

  // ---------- Characters and words ----------

  /** Which characters are refused, by where they stand. */
  lemma RefusedCharacters(c: char)
    ensures Offends(Bare, c) <==> c in ";|&<>$`()\0"
    ensures Offends(Double, c) <==> c in ";|&<>$`()\0\n\r"
    ensures Offends(BareEscape, c) <==> c in "\n\r"
    ensures Offends(DoubleEscape, c) <==> c !in "\"\\"
    ensures !Offends(Single, c)
    ensures c in " \t\n\r" ==> IsWhitespace(c)
  {}

  /** A character with no meaning of its own. */
  predicate IsPlain(c: char) {
    c !in ";|&<>$`()\0\n\r'\"\\" && !IsWhitespace(c)
  }

  predicate IsPlainWord(s: string) {
    s != "" && forall c :: c in s ==> IsPlain(c)
  }

  predicate IsGap(s: string) {
    forall c :: c in s ==> IsWhitespace(c)
  }

  /** Words with the gaps before each of them. */
  function Spaced(gaps: seq<string>, words: seq<string>): string
    requires |gaps| == |words|
  {
    if words == [] then "" else gaps[0] + (words[0] + Spaced(gaps[1..], words[1..]))
  }

  lemma {:induction false} ScanPlain(st: Scan, word: string)
    requires st.mode.Bare? && forall c :: c in word ==> IsPlain(c)
    ensures ScanFrom(st, word)
         == Some(st.(current := st.current + word, started := st.started || word != ""))
    decreases word
  {
    if word == "" {
      assert st.current + word == st.current;
    } else {
      assert word[0] in word && !Offends(Bare, word[0]);
      PlainStep(st, word[0]);
      ScanPlain(st.(current := st.current + [word[0]], started := true), word[1..]);
      assert st.current + [word[0]] + word[1..] == st.current + word;
    }
  }

  lemma PlainStep(st: Scan, c: char)
    requires st.mode.Bare? && IsPlain(c)
    ensures !Offends(st.mode, c) && Step(st, c) == st.(current := st.current + [c], started := true)
  {
    RefusedCharacters(c);
  }

  lemma GapStep(st: Scan, c: char)
    requires st.mode.Bare? && IsWhitespace(c)
    ensures !Offends(st.mode, c)
    ensures Step(st, c) ==
      if st.started then st.(argv := st.argv + [st.current], current := "", started := false) else st
  {}

  /** Whitespace ends the word that has been started, and does nothing else. */
  lemma {:induction false} ScanGap(st: Scan, gap: string)
    requires st.mode.Bare? && IsGap(gap) && (gap != "" || !st.started) && (!st.started ==> st.current == "")
    ensures ScanFrom(st, gap) == Some(
      if st.started then Scan(Bare, st.argv + [st.current], "", false) else st)
    decreases gap
  {
    if gap != "" {
      assert gap[0] in gap;
      GapStep(st, gap[0]);
      ScanGap(Step(st, gap[0]), gap[1..]);
    }
  }

  /** A gap and a word. */
  lemma ScanNext(st: Scan, gap: string, word: string, rest: string)
    requires IsGap(gap) && IsPlainWord(word) && st.mode.Bare?
    requires (!st.started ==> st.current == "") && (gap != "" || !st.started)
    ensures ScanFrom(st, gap + (word + rest)) == ScanFrom(Scan(Bare, Done(st), word, true), rest)
  {
    var between := Scan(Bare, Done(st), "", false);
    ScanGap(st, gap);
    ScanConcat(st, gap, word + rest);
    ScanPlain(between, word);
    assert "" + word == word;
    ScanConcat(between, word, rest);
  }

  /** Whether a word has been begun or not, the further words come out one by one. */
  lemma {:induction false} ScanSpaced(st: Scan, gaps: seq<string>, words: seq<string>)
    requires |gaps| == |words| && (forall w :: w in words ==> IsPlainWord(w)) && (forall g :: g in gaps ==> IsGap(g))
    requires st.mode.Bare? && (!st.started ==> st.current == "")
    requires forall i :: 0 <= i < |gaps| && (i > 0 || st.started) ==> gaps[i] != ""
    ensures var r := ScanFrom(st, Spaced(gaps, words));
      && r.Some? && r.value.mode.Bare? && (!r.value.started ==> r.value.current == "")
      && Finish(r) == Finish(Some(Scan(Bare, Done(st) + words, "", false)))
    decreases |words|
  {
    if words == [] {
      assert Done(st) + words == Done(st);
    } else {
      assert gaps[0] in gaps && words[0] in words;
      ScanNext(st, gaps[0], words[0], Spaced(gaps[1..], words[1..]));
      ScanSpaced(Scan(Bare, Done(st), words[0], true), gaps[1..], words[1..]);
      assert Done(st) + [words[0]] + words[1..] == Done(st) + words;
    }
  }

  /** The words completed, and the one begun. */
  function Done(st: Scan): seq<string> {
    if st.started then st.argv + [st.current] else st.argv
  }

  /** A command without quotes, backslashes and operators falls apart exactly at its whitespace:
      any non-empty list of plain words, with whitespace before and between them and after the
      last one, parses to the list. */
  lemma PlainWordsParse(gaps: seq<string>, words: seq<string>, end: string)
    requires |gaps| == |words| > 0 && (forall w :: w in words ==> IsPlainWord(w))
    requires (forall g :: g in gaps ==> IsGap(g)) && IsGap(end) && forall i :: 0 < i < |gaps| ==> gaps[i] != ""
    ensures Parsed(Spaced(gaps, words) + end) == Some(words)
  {
    ScanSpaced(START, gaps, words);
    var last := ScanFrom(START, Spaced(gaps, words)).value;
    ScanConcat(START, Spaced(gaps, words), end);
    assert [] + words == words;
    if end == "" {
      assert ScanFrom(last, "") == Some(last);
    } else {
      ScanGap(last, end);
    }
  }

  // ---------- Backslashes and double quotes ----------

  /** Every character with a backslash before it. */
  function Backslashed(s: string): string {
    if s == "" then "" else ['\\'] + ([s[0]] + Backslashed(s[1..]))
  }

  lemma {:induction false} ScanBackslashed(st: Scan, s: string)
    requires st.mode.Bare? && forall c :: c in s ==> !IsLineBreak(c)
    ensures ScanFrom(st, Backslashed(s)) == Some(st.(current := st.current + s, started := st.started || s != ""))
    decreases s
  {
    if s == "" {
      assert st.current + s == st.current;
    } else {
      assert s[0] in s;
      ScanOne(st, '\\', [s[0]] + Backslashed(s[1..]));
      ScanOne(st.(mode := BareEscape), s[0], Backslashed(s[1..]));
      ScanBackslashed(st.(current := st.current + [s[0]], started := true), s[1..]);
      assert st.current + [s[0]] + s[1..] == st.current + s;
    }
  }

  /** Outside quotes a backslash makes any character but a line break part of the word. */
  lemma BackslashedParses(s: string)
    requires s != "" && forall c :: c in s ==> c != '\n' && c != '\r'
    ensures Parsed(Backslashed(s)) == Some([s])
  {
    ScanBackslashed(START, s);
    assert "" + s == s && [] + [s] == [s];
  }

  /** The inside of double quotes: quotes and backslashes are escaped. */
  function InDouble(s: string): string {
    if s == "" then ""
    else (if s[0] in "\"\\" then ['\\', s[0]] else [s[0]]) + InDouble(s[1..])
  }

  lemma {:induction false} ScanInDouble(st: Scan, s: string)
    requires st.mode.Double? && st.started && forall c :: c in s ==> !IsShellOperator(c)
    ensures ScanFrom(st, InDouble(s)) == Some(st.(current := st.current + s))
    decreases s
  {
    if s == "" {
      assert st.current + s == st.current;
    } else {
      var next := st.(current := st.current + [s[0]]);
      assert s[0] in s;
      if s[0] in "\"\\" {
        assert ['\\', s[0]] + InDouble(s[1..]) == ['\\'] + ([s[0]] + InDouble(s[1..]));
        ScanOne(st, '\\', [s[0]] + InDouble(s[1..]));
        ScanOne(st.(mode := DoubleEscape), s[0], InDouble(s[1..]));
      } else {
        ScanOne(st, s[0], InDouble(s[1..]));
      }
      ScanInDouble(next, s[1..]);
      assert next.current + s[1..] == st.current + s;
    }
  }

  /** Any text without operators can be written in double quotes. */
  lemma DoubleQuotedParses(s: string)
    requires forall c :: c in s ==> c !in ";|&<>$`()\0\n\r"
    ensures Parsed("\"" + (InDouble(s) + "\"")) == Some([s])
  {
    var inside, last := Scan(Double, [], "", true), Scan(Double, [], s, true);
    forall c | c in s ensures !IsShellOperator(c) {
      RefusedCharacters(c);
    }
    ScanOne(START, '"', InDouble(s) + "\"");
    ScanInDouble(inside, s);
    assert "" + s == s && [] + [s] == [s];
    ScanConcat(inside, InDouble(s), "\"");
    ScanOne(last, '"', "");
    assert ['"'] + "" == "\"" && ['"'] + (InDouble(s) + "\"") == "\"" + (InDouble(s) + "\"");
  }

  // ---------- Nothing is invented or dropped ----------

  function Flatten(words: seq<string>): string {
    if words == [] then "" else Flatten(words[..|words| - 1]) + words[|words| - 1]
  }

  /** The text gathered so far. */
  function Gathered(st: Scan): string {
    Flatten(st.argv) + st.current
  }

  predicate Tidy(st: Scan) {
    st.current != "" ==> st.started
  }

  lemma StepGathers(st: Scan, c: char)
    requires Tidy(st)
    ensures Gathered(Step(st, c)) == Gathered(st) + if Literal(st.mode, c) then [c] else ""
    ensures Tidy(Step(st, c))
  {
    assert (st.argv + [st.current])[..|st.argv|] == st.argv;
    assert Flatten(st.argv + [st.current]) == Flatten(st.argv) + st.current;
  }

  lemma {:induction false} ScanGathers(st: Scan, s: string)
    requires ScanFrom(st, s).Some? && Tidy(st)
    ensures Tidy(ScanFrom(st, s).value)
    ensures Gathered(ScanFrom(st, s).value) == Gathered(st) + Literals(st.mode, s)
    decreases s
  {
    if s != "" {
      StepGathers(st, s[0]);
      ScanGathers(Step(st, s[0]), s[1..]);
      Regroup(Gathered(st), if Literal(st.mode, s[0]) then [s[0]] else "", Literals(ModeAfter(st.mode, s[0]), s[1..]));
    }
  }

  lemma Regroup(a: string, b: string, c: string)
    ensures (a + b) + c == a + (b + c)
  {}

  /** Run together, the arguments are exactly the literal characters of the command. */
  lemma ArgumentsAreLiterals(s: string)
    requires Parsed(s).Some?
    ensures Flatten(Parsed(s).value) == Literals(Bare, s)
  {
    ScanGathers(START, s);
    var r := ScanFrom(START, s).value;
    assert (r.argv + [r.current])[..|r.argv|] == r.argv;
    assert Flatten(r.argv + [r.current]) == Gathered(r);
    assert Gathered(START) + Literals(Bare, s) == Literals(Bare, s);
  }

  // ---------- The inverse printer ----------

  /** `replace('\'', "'\"'\"'")` */
  function EscapeQuotes(value: string): string {
    if value == "" then ""
    else (if value[0] == '\'' then "'\"'\"'" else [value[0]]) + EscapeQuotes(value[1..])
  }

  /** posix_single_quote */
  function PosixSingleQuote(value: string): string {
    "'" + EscapeQuotes(value) + "'"
  }

  function QuotedLine(args: seq<string>): string {
    if args == [] then ""
    else if |args| == 1 then PosixSingleQuote(args[0])
    else PosixSingleQuote(args[0]) + " " + QuotedLine(args[1..])
  }

  lemma {:induction false} ScanConcat(st: Scan, a: string, b: string)
    requires ScanFrom(st, a).Some?
    ensures ScanFrom(st, a + b) == ScanFrom(ScanFrom(st, a).value, b)
    decreases a
  {
    if a == "" {
      assert a + b == b;
    } else {
      ScanConcat(Step(st, a[0]), a[1..], b);
      assert (a + b)[1..] == a[1..] + b;
    }
  }

  lemma ScanQuote(st: Scan)
    requires st.mode.Single?
    ensures ScanFrom(st, "'\"'\"'") == Some(st.(current := st.current + ['\''], started := true))
  {
    var s1 := Step(st, '\'');
    var s2 := Step(s1, '"');
    var s3 := Step(s2, '\'');
    var s4 := Step(s3, '"');
    var s5 := Step(s4, '\'');
    assert s5 == st.(current := st.current + ['\''], started := true);
    assert ScanFrom(s5, "") == Some(s5);
    assert "'"[1..] == "" && ScanFrom(s4, "'") == Some(s5);
    assert "\"'"[1..] == "'" && ScanFrom(s3, "\"'") == Some(s5);
    assert "'\"'"[1..] == "\"'" && ScanFrom(s2, "'\"'") == Some(s5);
    assert "\"'\"'"[1..] == "'\"'" && ScanFrom(s1, "\"'\"'") == Some(s5);
    assert "'\"'\"'"[1..] == "\"'\"'";
  }

  lemma {:induction false} ScanEscaped(st: Scan, value: string)
    requires st.mode.Single? && st.started
    ensures ScanFrom(st, EscapeQuotes(value)) == Some(st.(current := st.current + value))
    decreases value
  {
    if value == "" {
      assert st.current + value == st.current;
    } else {
      var next := st.(current := st.current + [value[0]]);
      var head := if value[0] == '\'' then "'\"'\"'" else [value[0]];
      if value[0] == '\'' {
        ScanQuote(st);
      } else {
        assert ScanFrom(next, "") == Some(next);
        assert head[1..] == "" && Step(st, head[0]) == next;
      }
      assert ScanFrom(st, head) == Some(next);
      ScanConcat(st, head, EscapeQuotes(value[1..]));
      ScanEscaped(next, value[1..]);
      assert next.current + value[1..] == st.current + value;
    }
  }

  lemma ScanQuoted(argv: seq<string>, value: string)
    ensures ScanFrom(Scan(Bare, argv, "", false), PosixSingleQuote(value)) == Some(Scan(Bare, argv, value, true))
  {
    var st, inside := Scan(Bare, argv, "", false), Scan(Single, argv, "", true);
    var last, done := Scan(Single, argv, value, true), Scan(Bare, argv, value, true);
    assert Step(st, '\'') == inside && Step(last, '\'') == done;
    ScanEscaped(inside, value);
    assert inside.current + value == value;
    ScanOne(last, '\'', "");
    assert ['\''] + "" == "'";
    ScanConcat(inside, EscapeQuotes(value), "'");
    ScanOne(st, '\'', EscapeQuotes(value) + "'");
    assert PosixSingleQuote(value) == ['\''] + (EscapeQuotes(value) + "'");
  }

  /** A quoted word and the space after it. */
  lemma ScanWord(argv: seq<string>, value: string, rest: string)
    ensures ScanFrom(Scan(Bare, argv, "", false), PosixSingleQuote(value) + ([' '] + rest))
         == ScanFrom(Scan(Bare, argv + [value], "", false), rest)
  {
    ScanQuoted(argv, value);
    ScanConcat(Scan(Bare, argv, "", false), PosixSingleQuote(value), [' '] + rest);
    assert Step(Scan(Bare, argv, value, true), ' ') == Scan(Bare, argv + [value], "", false);
    ScanOne(Scan(Bare, argv, value, true), ' ', rest);
  }

  lemma QuotedLineUnfolds(args: seq<string>)
    requires |args| > 1
    ensures QuotedLine(args) == PosixSingleQuote(args[0]) + ([' '] + QuotedLine(args[1..]))
  {
    assert PosixSingleQuote(args[0]) + " " + QuotedLine(args[1..])
        == PosixSingleQuote(args[0]) + ([' '] + QuotedLine(args[1..]));
  }

  lemma {:induction false} ScanLine(argv: seq<string>, args: seq<string>)
    requires args != []
    ensures Finish(ScanFrom(Scan(Bare, argv, "", false), QuotedLine(args))) == Some(argv + args)
    decreases args
  {
    if |args| == 1 {
      ScanQuoted(argv, args[0]);
      assert args == [args[0]] && QuotedLine(args) == PosixSingleQuote(args[0]);
      assert Finish(Some(Scan(Bare, argv, args[0], true))) == Some(argv + [args[0]]);
    } else {
      QuotedLineUnfolds(args);
      ScanWord(argv, args[0], QuotedLine(args[1..]));
      ScanLine(argv + [args[0]], args[1..]);
      assert argv + [args[0]] + args[1..] == argv + args;
    }
  }

  /** Any non-empty list of strings, whatever their characters, survives being quoted,
      joined by spaces and parsed. */
  lemma QuotedLineParses(args: seq<string>)
    requires args != []
    ensures Parsed(QuotedLine(args)) == Some(args)
  {
    ScanLine([], args);
    assert [] + args == args;
  }
}
