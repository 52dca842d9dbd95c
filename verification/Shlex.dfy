/**
 The word splitting of a POSIX shell command line (section 2.2 of the Shell Command Language, IEEE Std 1003.1)
 as the state machine that `shlex.split` runs, with comments switched off, and the quoting done by `shlex_quote`.
 */
module Shlex {
  import opened Prelude

  datatype LexError = NoClosingQuotation | NoEscapedCharacter

  /** Where the machine stands. An escape remembers whether it was met inside double quotes. */
  datatype Mode = Space | Word | Quote(mark: char) | Escape(inQuotes: bool)

  /** The machine's registers: its mode, the word read so far, and whether any part of that word was quoted. */
  datatype Lexer = Lexer(mode: Mode, token: string, quoted: bool)

  const START := Lexer(Space, "", false)

  predicate IsWhitespace(c: char) {
    c == ' ' || c == '\t' || c == '\r' || c == '\n'
  }

  predicate IsQuote(c: char) {
    c == '\'' || c == '"'
  }

  /** The characters that the shell does not read as themselves. */
  predicate IsSpecial(c: char) {
    IsWhitespace(c) || IsQuote(c) || c == '\\'
  }

  predicate HasSpecial(s: string) {
    exists i :: 0 <= i < |s| && IsSpecial(s[i])
  }

  /** A word is produced if it is non-empty or was quoted: `''` is an empty word. */
  function Emitted(lx: Lexer): seq<string> {
    if lx.token != "" || lx.quoted then [lx.token] else []
  }

  /** Reads one character; the second component is the word completed by it, if any. */
  function Step(lx: Lexer, c: char): (Lexer, seq<string>) {
    match lx.mode
    case Space =>
      if IsWhitespace(c) then (START, Emitted(lx))
      else if c == '\\' then (lx.(mode := Escape(false)), [])
      else if IsQuote(c) then (lx.(mode := Quote(c)), [])
      else (lx.(mode := Word, token := [c]), [])
    case Word =>
      if IsWhitespace(c) then (START, Emitted(lx))
      else if IsQuote(c) then (lx.(mode := Quote(c)), [])
      else if c == '\\' then (lx.(mode := Escape(false)), [])
      else (lx.(token := lx.token + [c]), [])
    case Quote(mark) =>
      if c == mark then (Lexer(Word, lx.token, true), [])
      else if c == '\\' && mark == '"' then (Lexer(Escape(true), lx.token, true), [])
      else (Lexer(Quote(mark), lx.token + [c], true), [])
    case Escape(inQuotes) =>
      var kept := if inQuotes && c != '\\' && c != '"' then "\\" else "";
      (Lexer(if inQuotes then Quote('"') else Word, lx.token + kept + [c], lx.quoted), [])
  }

  function Finish(lx: Lexer): Result<seq<string>, LexError> {
    match lx.mode
    case Space => Ok([])
    case Word => Ok(Emitted(lx))
    case Quote(_) => Err(NoClosingQuotation)
    case Escape(_) => Err(NoEscapedCharacter)
  }

  /** The words still to come when `s` is read by a machine in state `lx`. */
  function Lex(s: string, lx: Lexer): Result<seq<string>, LexError> {
    if s == "" then Finish(lx)
    else
      var (next, words) := Step(lx, s[0]);
      match Lex(s[1..], next)
      case Err(e) => Err(e)
      case Ok(rest) => Ok(words + rest)
  }

  function Split(s: string): Result<seq<string>, LexError> {
    Lex(s, START)
  }

  predicate IsSafe(c: char) {
    'a' <= c <= 'z' || 'A' <= c <= 'Z' || '0' <= c <= '9' || c in "@%_-+=:,./"
  }

  /** Every single quote leaves the quotes, appears between double quotes, and re-enters. */
  function QuoteBody(s: string): string {
    if s == "" then "" else (if s[0] == '\'' then "'\"'\"'" else [s[0]]) + QuoteBody(s[1..])
  }

  function ShellQuote(s: string): string {
    if s == "" then "''"
    else if forall i :: 0 <= i < |s| ==> IsSafe(s[i]) then s
    else "'" + QuoteBody(s) + "'"
  }

  lemma LexCons(c: char, rest: string, lx: Lexer)
    requires Step(lx, c).1 == []
    ensures Lex([c] + rest, lx) == Lex(rest, Step(lx, c).0)
  {
    assert ([c] + rest)[1..] == rest;
    var tail := Lex(rest, Step(lx, c).0);
    assert tail.Ok? ==> [] + tail.value == tail.value;
  }

  /** Ordinary characters just extend the current word. */
  lemma {:induction false} RunPlain(p: string, lx: Lexer)
    requires lx.mode == Word && !HasSpecial(p)
    ensures Run(p, lx) == (lx.(token := lx.token + p), [])
  {
    if p == "" {
      assert lx.token + p == lx.token;
    } else {
      assert !HasSpecial(p[1..]) by {
        assert forall i :: 0 <= i < |p[1..]| ==> p[1..][i] == p[i + 1];
      }
      var next := lx.(token := lx.token + [p[0]]);
      assert !IsSpecial(p[0]) && Step(lx, p[0]) == (next, []);
      RunPlain(p[1..], next);
      assert next.token + p[1..] == lx.token + p && [] + Run(p[1..], next).1 == Run(p[1..], next).1;
    }
  }

  lemma LexPlain(p: string, rest: string, lx: Lexer)
    requires lx.mode == Word && !HasSpecial(p)
    ensures Lex(p + rest, lx) == Lex(rest, lx.(token := lx.token + p))
  {
    RunPlain(p, lx);
    LexRun(p, rest, lx);
    PrependNothing(Lex(rest, Run(p, lx).0));
  }

  /** Inside single quotes, the quoted form of `v` adds exactly `v` to the word. */
  lemma {:induction false} RunQuoteBody(v: string, token: string, quoted: bool)
    ensures Run(QuoteBody(v) + "'", Lexer(Quote('\''), token, quoted)) == (Lexer(Word, token + v, true), [])
  {
    var lx := Lexer(Quote('\''), token, quoted);
    if v == "" {
      assert QuoteBody(v) + "'" == ['\''] + "" && token + v == token;
      RunQuote('\'', "", lx);
    } else {
      var tail := QuoteBody(v[1..]) + "'";
      assert token + [v[0]] + v[1..] == token + v;
      RunQuoteBody(v[1..], token + [v[0]], true);
      if v[0] == '\'' {
        assert QuoteBody(v) + "'" == QUOTED_QUOTE + tail;
        RunAppend(QUOTED_QUOTE, tail, lx);
        RunQuotedQuote(lx);
        assert [] + Run(tail, AfterQuotedQuote(lx)).1 == [];
      } else {
        assert QuoteBody(v) + "'" == [v[0]] + tail && ([v[0]] + tail)[1..] == tail;
        assert [] + Run(tail, Step(lx, v[0]).0).1 == [];
      }
    }
  }

  /** Whatever text is quoted, the shell reads it back as that text, in the middle of any word. */
  lemma RunShellQuote(v: string, lx: Lexer) returns (quoted: bool)
    requires lx.mode == Word
    ensures (lx.quoted ==> quoted) && Run(ShellQuote(v), lx) == (Lexer(Word, lx.token + v, quoted), [])
  {
    if v != "" && forall i :: 0 <= i < |v| ==> IsSafe(v[i]) {
      RunPlain(v, lx);
      quoted := lx.quoted;
    } else {
      assert ShellQuote(v) == ['\''] + (QuoteBody(v) + "'");
      RunQuote('\'', QuoteBody(v) + "'", lx);
      RunQuoteBody(v, lx.token, lx.quoted);
      quoted := true;
    }
  }

  lemma LexShellQuote(v: string, rest: string, token: string, quoted: bool)
    ensures exists q ::
      (quoted ==> q) &&
      Lex(ShellQuote(v) + rest, Lexer(Word, token, quoted)) == Lex(rest, Lexer(Word, token + v, q))
  {
    var q := RunShellQuote(v, Lexer(Word, token, quoted));
    LexRun(ShellQuote(v), rest, Lexer(Word, token, quoted));
    PrependNothing(Lex(rest, Lexer(Word, token + v, q)));
  }

  function TotalLength(words: seq<string>): nat {
    if words == [] then 0 else |words[0]| + TotalLength(words[1..])
  }

  lemma {:induction false} MemberNoLonger(words: seq<string>, w: string)
    requires w in words
    ensures |w| <= TotalLength(words)
  {
    if w != words[0] {
      MemberNoLonger(words[1..], w);
    }
  }

  lemma TotalLengthOf(word: seq<string>, rest: seq<string>)
    requires |word| <= 1
    ensures TotalLength(word + rest) == (if word == [] then 0 else |word[0]|) + TotalLength(rest)
  {
    if word == [] {
      assert word + rest == rest;
    } else {
      assert (word + rest)[1..] == rest;
    }
  }

  lemma SpecialBehind(s: string)
    requires s != "" && HasSpecial(s) && !IsSpecial(s[0])
    ensures HasSpecial(s[1..])
  {
    var i :| 0 <= i < |s| && IsSpecial(s[i]);
    assert IsSpecial(s[1..][i - 1]);
  }

  /**
   Splitting never invents characters, and loses at least one as soon as a special character is read:
   no command line with a special character contains itself as a word.
   */
  lemma {:induction false} LexLosesSpecials(s: string, lx: Lexer)
    requires Lex(s, lx).Ok?
    requires lx.mode == Space ==> lx == START
    ensures
      var spent := match lx.mode
        case Quote(_) => 1
        case Escape(inQuotes) => 0
        case _ => if HasSpecial(s) then 1 else 0;
      TotalLength(Lex(s, lx).value) + spent <= |lx.token| + |s|
  {
    if s == "" {
      TotalLengthOf(Emitted(lx), []);
      assert Emitted(lx) + [] == Emitted(lx);
    } else {
      var (next, words) := Step(lx, s[0]);
      LexLosesSpecials(s[1..], next);
      TotalLengthOf(words, Lex(s[1..], next).value);
      if HasSpecial(s) && !IsSpecial(s[0]) {
        SpecialBehind(s);
      }
    }
  }

  /* Quotes and backslashes */

  const MARKS: set<char> := {'\'', '"', '\\'}
  const BACKSLASH: set<char> := {'\\'}

  /** How many of the characters occur in the text. */
  function Count(of: set<char>, s: string): nat {
    if s == "" then 0 else (if s[0] in of then 1 else 0) + Count(of, s[1..])
  }

  function CountAll(of: set<char>, words: seq<string>): nat {
    if words == [] then 0 else Count(of, words[0]) + CountAll(of, words[1..])
  }

  lemma {:induction false} CountAppend(of: set<char>, s: string, t: string)
    ensures Count(of, s + t) == Count(of, s) + Count(of, t)
  {
    if s == "" {
      assert s + t == t;
    } else {
      assert (s + t)[1..] == s[1..] + t;
      CountAppend(of, s[1..], t);
    }
  }

  lemma {:induction false} CountAllAppend(of: set<char>, a: seq<string>, b: seq<string>)
    ensures CountAll(of, a + b) == CountAll(of, a) + CountAll(of, b)
  {
    if a == [] {
      assert a + b == b;
    } else {
      assert (a + b)[1..] == a[1..] + b;
      CountAllAppend(of, a[1..], b);
    }
  }

  lemma {:induction false} CountNone(of: set<char>, s: string)
    requires forall i :: 0 <= i < |s| ==> s[i] !in of
    ensures Count(of, s) == 0
  {
    if s != "" {
      assert forall i :: 0 <= i < |s[1..]| ==> s[1..][i] == s[i + 1];
      CountNone(of, s[1..]);
    }
  }

  lemma CountEmitted(of: set<char>, lx: Lexer)
    ensures CountAll(of, Emitted(lx)) == Count(of, lx.token)
  {
    assert [lx.token][1..] == [];
  }

  /** A character read adds itself or nothing to the word; a backslash may be added one character late. */
  lemma MarksOfStep(lx: Lexer, c: char)
    requires (lx.mode == Space ==> lx == START) && (lx.mode.Quote? ==> IsQuote(lx.mode.mark))
    ensures
      var (next, words) := Step(lx, c);
      var owed := if lx.mode == Escape(true) then 1 else 0;
      var opens := lx.mode in {Space, Word} && c in MARKS;
      var closes := lx.mode.Quote? && c == lx.mode.mark;
      var owes := if lx.mode.Quote? && next.mode.Escape? then 1 else 0;
      && (next.mode == Space ==> next == START) && (next.mode.Quote? ==> IsQuote(next.mode.mark))
      && CountAll(MARKS, words) + Count(MARKS, next.token) + owes + (if opens || closes then 1 else 0) <=
        Count(MARKS, lx.token) + owed + if c in MARKS then 1 else 0
  {
    CountEmitted(MARKS, lx);
    CountAppend(MARKS, lx.token, [c]);
    assert [c][1..] == "";
    CountAppend(MARKS, lx.token, "\\");
    assert "\\"[1..] == "";
    CountAppend(MARKS, lx.token + "\\", [c]);
    assert lx.token + "" == lx.token;
  }

  /** Splitting never invents quotes or backslashes, and loses one as soon as there is one. */
  lemma {:induction false} LexLosesMarks(s: string, lx: Lexer)
    requires Lex(s, lx).Ok?
    requires (lx.mode == Space ==> lx == START) && (lx.mode.Quote? ==> IsQuote(lx.mode.mark))
    ensures
      var spent := match lx.mode
        case Quote(_) => 1
        case Escape(inQuotes) => 0
        case _ => if Count(MARKS, s) > 0 then 1 else 0;
      CountAll(MARKS, Lex(s, lx).value) + spent <= Count(MARKS, lx.token) + Count(MARKS, s)
  {
    if s == "" {
      CountEmitted(MARKS, lx);
    } else {
      var (next, words) := Step(lx, s[0]);
      MarksOfStep(lx, s[0]);
      LexLosesMarks(s[1..], next);
      CountAllAppend(MARKS, words, Lex(s[1..], next).value);
    }
  }

  predicate IsClear(w: string) {
    w != "" && !HasSpecial(w)
  }

  /** Before any quote: the word begun has no special character. */
  predicate Unquoted(lx: Lexer) {
    lx.mode in {Space, Word} && !lx.quoted && !HasSpecial(lx.token) && (lx.mode == Space ==> lx == START)
  }

  lemma ClearStep(lx: Lexer, c: char)
    requires Unquoted(lx) && c !in MARKS
    ensures
      var (next, words) := Step(lx, c);
      Unquoted(next) && forall w :: w in words ==> IsClear(w)
  {
    var next := Step(lx, c).0;
    assert forall i :: 0 <= i < |next.token| ==> next.token[i] == c || next.token[i] in lx.token;
    assert forall x :: x in lx.token ==> !IsSpecial(x);
  }

  /** The result of lexing with some words before it. */
  function Prepend(words: seq<string>, r: Result<seq<string>, LexError>): Result<seq<string>, LexError> {
    match r
    case Err(e) => Err(e)
    case Ok(rest) => Ok(words + rest)
  }

  lemma PrependNothing(r: Result<seq<string>, LexError>)
    ensures Prepend([], r) == r
  {
    if r.Ok? {
      assert [] + r.value == r.value;
    }
  }

  lemma PrependTwice(a: seq<string>, b: seq<string>, r: Result<seq<string>, LexError>)
    ensures Prepend(a, Prepend(b, r)) == Prepend(a + b, r)
  {
    if r.Ok? {
      assert a + (b + r.value) == a + b + r.value;
    }
  }

  /** Text without quotes and backslashes gives words without special characters, and leaves the lexer unquoted. */
  lemma {:induction false} LexUnquoted(p: string, rest: string, lx: Lexer) returns (words: seq<string>, next: Lexer)
    requires Count(MARKS, p) == 0 && Unquoted(lx)
    ensures Unquoted(next) && forall w :: w in words ==> IsClear(w)
    ensures Lex(p + rest, lx) == Prepend(words, Lex(rest, next))
  {
    if p == "" {
      words, next := [], lx;
      assert p + rest == rest;
      assert Lex(rest, lx).Ok? ==> [] + Lex(rest, lx).value == Lex(rest, lx).value;
    } else {
      var (step, first) := Step(lx, p[0]);
      ClearStep(lx, p[0]);
      var more;
      more, next := LexUnquoted(p[1..], rest, step);
      words := first + more;
      assert p + rest == [p[0]] + (p[1..] + rest) && (p + rest)[1..] == p[1..] + rest;
      PrependTwice(first, more, Lex(rest, next));
    }
  }

  /* Runs of the machine, and what they keep of the characters read */

  /** The state after reading the text, and the words completed on the way. */
  function Run(s: string, lx: Lexer): (Lexer, seq<string>) {
    if s == "" then (lx, [])
    else
      var (next, words) := Step(lx, s[0]);
      var (last, more) := Run(s[1..], next);
      (last, words + more)
  }

  lemma {:induction false} LexRun(s: string, rest: string, lx: Lexer)
    ensures Lex(s + rest, lx) == Prepend(Run(s, lx).1, Lex(rest, Run(s, lx).0))
  {
    if s == "" {
      assert s + rest == rest;
      assert Lex(rest, lx).Ok? ==> [] + Lex(rest, lx).value == Lex(rest, lx).value;
    } else {
      var (next, words) := Step(lx, s[0]);
      assert (s + rest)[1..] == s[1..] + rest;
      LexRun(s[1..], rest, next);
      PrependTwice(words, Run(s[1..], next).1, Lex(rest, Run(s, lx).0));
    }
  }

  lemma {:induction false} RunAppend(s: string, t: string, lx: Lexer)
    ensures Run(s + t, lx) == (Run(t, Run(s, lx).0).0, Run(s, lx).1 + Run(t, Run(s, lx).0).1)
  {
    if s == "" {
      assert s + t == t && [] + Run(t, lx).1 == Run(t, lx).1;
    } else {
      var (next, words) := Step(lx, s[0]);
      assert (s + t)[1..] == s[1..] + t;
      RunAppend(s[1..], t, next);
      var after := Run(s[1..], next);
      assert words + (after.1 + Run(t, after.0).1) == words + after.1 + Run(t, after.0).1;
    }
  }

  lemma RunOne(c: char, lx: Lexer)
    ensures Run([c], lx) == Step(lx, c)
  {
    assert [c][1..] == "";
    assert Step(lx, c).1 + [] == Step(lx, c).1;
  }

  predicate WellFormed(lx: Lexer) {
    (lx.mode == Space ==> lx == START) && (lx.mode.Quote? ==> IsQuote(lx.mode.mark))
  }

  /** How many of the characters have been kept, in the words completed and in the one begun. */
  function Kept(of: set<char>, run: (Lexer, seq<string>)): nat {
    CountAll(of, run.1) + Count(of, run.0.token)
  }

  /** A backslash met inside double quotes may still be kept. */
  function Owed(of: set<char>, lx: Lexer): nat {
    if lx.mode == Escape(true) && '\\' in of then 1 else 0
  }

  lemma KeptAppend(of: set<char>, words: seq<string>, run: (Lexer, seq<string>))
    ensures Kept(of, (run.0, words + run.1)) == CountAll(of, words) + Kept(of, run)
  {
    CountAllAppend(of, words, run.1);
  }

  lemma CountOneMore(of: set<char>, s: string, c: char)
    ensures Count(of, s + [c]) == Count(of, s) + if c in of then 1 else 0
  {
    assert [c][1..] == "";
    CountAppend(of, s, [c]);
  }

  lemma EscapeKeeps(of: set<char>, lx: Lexer, c: char)
    requires lx.mode.Escape?
    ensures
      var token := Step(lx, c).0.token;
      Count(of, lx.token) <= Count(of, token) <= Count(of, lx.token) + Owed(of, lx) + if c in of then 1 else 0
  {
    var kept := if lx.mode.inQuotes && c != '\\' && c != '"' then "\\" else "";
    assert Step(lx, c).0.token == lx.token + kept + [c];
    CountAppend(of, lx.token, kept);
    CountOneMore(of, lx.token + kept, c);
    CountOneMore(of, "", '\\');
    assert "" + ['\\'] == "\\";
  }

  /** What has been read into a word is never lost, and what is kept has been read. */
  lemma StepKeeps(of: set<char>, lx: Lexer, c: char)
    requires WellFormed(lx)
    ensures
      var step := Step(lx, c);
      && WellFormed(step.0) && Count(of, lx.token) <= Kept(of, step)
      && Kept(of, step) + Owed(of, step.0) <= Count(of, lx.token) + Owed(of, lx) + if c in of then 1 else 0
  {
    if lx.mode.Escape? {
      EscapeKeeps(of, lx, c);
    } else {
      CountEmitted(of, lx);
      CountOneMore(of, lx.token, c);
      CountOneMore(of, "", c);
      assert "" + [c] == [c];
    }
  }

  lemma {:induction false} RunKeeps(of: set<char>, s: string, lx: Lexer)
    requires WellFormed(lx)
    ensures
      var run := Run(s, lx);
      && WellFormed(run.0) && Count(of, lx.token) <= Kept(of, run)
      && Kept(of, run) + Owed(of, run.0) <= Count(of, lx.token) + Owed(of, lx) + Count(of, s)
  {
    if s != "" {
      var (next, words) := Step(lx, s[0]);
      StepKeeps(of, lx, s[0]);
      RunKeeps(of, s[1..], next);
      KeptAppend(of, words, Run(s[1..], next));
    }
  }

  lemma RunThenRun(of: set<char>, s: string, t: string, lx: Lexer)
    ensures
      Run(s + t, lx).0 == Run(t, Run(s, lx).0).0 &&
      Kept(of, Run(s + t, lx)) == CountAll(of, Run(s, lx).1) + Kept(of, Run(t, Run(s, lx).0))
  {
    RunAppend(s, t, lx);
    KeptAppend(of, Run(s, lx).1, Run(t, Run(s, lx).0));
  }

  /** A line that can be split is split into the words of its run, in which all of them are kept. */
  lemma SplitIsRun(of: set<char>, line: string)
    requires Split(line).Ok?
    ensures CountAll(of, Split(line).value) == Kept(of, Run(line, START)) && Run(line, START).0.mode in {Space, Word}
  {
    LexRun(line, "", START);
    assert line + "" == line;
    RunKeeps(of, line, START);
    var run := Run(line, START);
    CountEmitted(of, run.0);
    CountAllAppend(of, run.1, if run.0.mode == Space then [] else Emitted(run.0));
  }

  /* Blanks */

  const BLANKS: set<char> := {' ', '\t', '\r', '\n'}

  /** Every word beyond the first costs a blank. */
  lemma {:induction false} LexSpendsBlanks(s: string, lx: Lexer)
    requires Lex(s, lx).Ok? && WellFormed(lx)
    ensures
      |Lex(s, lx).value| + CountAll(BLANKS, Lex(s, lx).value) <= Count(BLANKS, lx.token) + Count(BLANKS, s) + 1
  {
    CountEmitted(BLANKS, lx);
    if s != "" {
      var step := Step(lx, s[0]);
      StepKeeps(BLANKS, lx, s[0]);
      LexSpendsBlanks(s[1..], step.0);
      CountAllAppend(BLANKS, step.1, Lex(s[1..], step.0).value);
    }
  }

  /* Single quotes */

  const SINGLE: set<char> := {'\''}
  const DOUBLE: set<char> := {'"'}

  lemma RunQuote(c: char, rest: string, lx: Lexer)
    requires IsQuote(c)
    ensures Run([c] + rest, lx) == Run(rest, Step(lx, c).0)
  {
    assert ([c] + rest)[1..] == rest && Step(lx, c).1 == [];
    assert [] + Run(rest, Step(lx, c).0).1 == Run(rest, Step(lx, c).0).1;
  }

  /** The way in which a single quote is written inside single quotes. */
  const QUOTED_QUOTE := "'\"'\"'"

  function AfterQuotedQuote(lx: Lexer): Lexer {
    Step(Step(Step(Step(Step(lx, '\'').0, '"').0, '\'').0, '"').0, '\'').0
  }

  lemma RunQuotedQuote(lx: Lexer)
    ensures Run(QUOTED_QUOTE, lx) == (AfterQuotedQuote(lx), [])
  {
    assert QUOTED_QUOTE == ['\''] + (['"'] + (['\''] + (['"'] + (['\''] + ""))));
    RunQuote('\'', ['"'] + (['\''] + (['"'] + (['\''] + ""))), lx);
    RunQuote('"', ['\''] + (['"'] + (['\''] + "")), Step(lx, '\'').0);
    RunQuote('\'', ['"'] + (['\''] + ""), Step(Step(lx, '\'').0, '"').0);
    RunQuote('"', ['\''] + "", Step(Step(Step(lx, '\'').0, '"').0, '\'').0);
    RunQuote('\'', "", Step(Step(Step(Step(lx, '\'').0, '"').0, '\'').0, '"').0);
  }

  /** What it gives depends on where it is read. */
  function QuotedQuoteGives(mode: Mode): string {
    match mode
    case Quote(mark) => if mark == '"' then "'\"" else "'"
    case Escape(inQuotes) => if inQuotes then "\\'\"" else "''"
    case _ => "\"'"
  }

  lemma AfterQuotedQuoteIs(lx: Lexer)
    requires WellFormed(lx)
    ensures AfterQuotedQuote(lx).token == lx.token + QuotedQuoteGives(lx.mode)
  {
    match lx.mode
    case Space =>
    case Word =>
    case Quote(mark) =>
    case Escape(inQuotes) => assert lx.token + "" == lx.token;
  }

  lemma SingleGiven(mode: Mode)
    ensures Count(SINGLE, QuotedQuoteGives(mode)) >= 1
  {
    var gives := QuotedQuoteGives(mode);
    var i := if gives[0] == '\'' then 0 else 1;
    assert gives == gives[..i] + (gives[i..i + 1] + gives[i + 1..]) && gives[i] == '\'';
    CountAppend(SINGLE, gives[..i], gives[i..i + 1] + gives[i + 1..]);
    CountAppend(SINGLE, gives[i..i + 1], gives[i + 1..]);
  }

  /** But it gives a single quote wherever it is read, in quotes or not. */
  lemma QuotedQuoteKeepsOne(lx: Lexer)
    requires WellFormed(lx)
    ensures Kept(SINGLE, Run(QUOTED_QUOTE, lx)) >= Count(SINGLE, lx.token) + 1
  {
    RunQuotedQuote(lx);
    AfterQuotedQuoteIs(lx);
    SingleGiven(lx.mode);
    CountAppend(SINGLE, lx.token, QuotedQuoteGives(lx.mode));
  }

  /** A quoted text keeps its single quotes wherever it is read. */
  lemma {:induction false} QuoteBodyKeepsSingles(v: string, lx: Lexer)
    requires WellFormed(lx)
    ensures Kept(SINGLE, Run(QuoteBody(v), lx)) >= Count(SINGLE, lx.token) + Count(SINGLE, v)
  {
    if v != "" {
      var head := if v[0] == '\'' then QUOTED_QUOTE else [v[0]];
      RunKeeps(SINGLE, head, lx);
      RunThenRun(SINGLE, head, QuoteBody(v[1..]), lx);
      if v[0] == '\'' {
        QuotedQuoteKeepsOne(lx);
      }
      QuoteBodyKeepsSingles(v[1..], Run(head, lx).0);
    }
  }

  lemma ShellQuoteKeepsSingles(v: string, lx: Lexer)
    requires WellFormed(lx)
    ensures Kept(SINGLE, Run(ShellQuote(v), lx)) >= Count(SINGLE, lx.token) + Count(SINGLE, v)
  {
    if v == "" {
      RunKeeps(SINGLE, ShellQuote(v), lx);
    } else if forall i :: 0 <= i < |v| ==> IsSafe(v[i]) {
      CountNone(SINGLE, v);
      RunKeeps(SINGLE, v, lx);
    } else {
      var first := Step(lx, '\'').0;
      assert ShellQuote(v) == ['\''] + (QuoteBody(v) + "'");
      RunQuote('\'', QuoteBody(v) + "'", lx);
      StepKeeps(SINGLE, lx, '\'');
      QuoteBodyKeepsSingles(v, first);
      RunKeeps(SINGLE, QuoteBody(v), first);
      RunThenRun(SINGLE, QuoteBody(v), "'", first);
      RunKeeps(SINGLE, "'", Run(QuoteBody(v), first).0);
    }
  }

  /* Reading where no raw single quote occurs */

  /** Outside single quotes, and not about to lose a backslash. */
  predicate NoSingle(lx: Lexer) {
    WellFormed(lx) && lx.mode in {Space, Word, Quote('"'), Escape(true)}
  }

  predicate InDouble(lx: Lexer) {
    lx.mode in {Quote('"'), Escape(true)}
  }

  /** The least that reading keeps of the single quotes meant, and the most that it keeps of the backslashes. */
  predicate Bounded(lx: Lexer, run: (Lexer, seq<string>), meant: string) {
    && WellFormed(run.0)
    && Kept(SINGLE, run) >= Count(SINGLE, lx.token) + Count(SINGLE, meant)
    && Kept(BACKSLASH, run) + Owed(BACKSLASH, run.0) <=
      Count(BACKSLASH, lx.token) + Owed(BACKSLASH, lx) + Count(BACKSLASH, meant)
  }

  /**
   Something is amiss with what was read: a backslash is lost, or there is a single quote too many, or no double quote
   too many, and one too few if the text was marked and read from outside double quotes.
   */
  predicate Spoils(lx: Lexer, run: (Lexer, seq<string>), meant: string, marked: bool) {
    || Kept(BACKSLASH, run) + Owed(BACKSLASH, run.0) <
      Count(BACKSLASH, lx.token) + Owed(BACKSLASH, lx) + Count(BACKSLASH, meant)
    || Kept(SINGLE, run) > Count(SINGLE, lx.token) + Count(SINGLE, meant)
    || (&& NoSingle(run.0) && (!InDouble(lx) && !marked ==> !InDouble(run.0))
        && Kept(DOUBLE, run) + (if !InDouble(lx) && marked then 1 else 0) <=
          Count(DOUBLE, lx.token) + Count(DOUBLE, meant))
  }

  lemma BoundedThenBounded(s: string, t: string, lx: Lexer, meant: string, meant': string)
    requires Bounded(lx, Run(s, lx), meant) && Bounded(Run(s, lx).0, Run(t, Run(s, lx).0), meant')
    ensures Bounded(lx, Run(s + t, lx), meant + meant')
  {
    RunThenRun(SINGLE, s, t, lx);
    RunThenRun(BACKSLASH, s, t, lx);
    CountAppend(SINGLE, meant, meant');
    CountAppend(BACKSLASH, meant, meant');
  }

  lemma SpoilsThenSpoils(s: string, t: string, lx: Lexer, meant: string, meant': string, marked: bool, marked': bool)
    requires Bounded(lx, Run(s, lx), meant) && Bounded(Run(s, lx).0, Run(t, Run(s, lx).0), meant')
    requires Spoils(lx, Run(s, lx), meant, marked)
    requires NoSingle(Run(s, lx).0) ==> Spoils(Run(s, lx).0, Run(t, Run(s, lx).0), meant', marked')
    ensures Spoils(lx, Run(s + t, lx), meant + meant', marked || marked')
  {
    RunThenRun(SINGLE, s, t, lx);
    RunThenRun(BACKSLASH, s, t, lx);
    RunThenRun(DOUBLE, s, t, lx);
    CountAppend(SINGLE, meant, meant');
    CountAppend(BACKSLASH, meant, meant');
    CountAppend(DOUBLE, meant, meant');
  }

  const DOUBLE_OR_BACKSLASH: set<char> := {'"', '\\'}

  lemma CharSpoils(lx: Lexer, c: char)
    requires NoSingle(lx) && c != '\''
    ensures Bounded(lx, Run([c], lx), [c]) && Spoils(lx, Run([c], lx), [c], c in DOUBLE_OR_BACKSLASH)
  {
    RunOne(c, lx);
    StepKeeps(SINGLE, lx, c);
    StepKeeps(BACKSLASH, lx, c);
    CountOneMore(SINGLE, "", c);
    CountOneMore(BACKSLASH, "", c);
    CountOneMore(DOUBLE, "", c);
    assert "" + [c] == [c];
    CharKeepsDouble(lx, c);
    if c == '\\' && !InDouble(lx) {
      CharKeepsBackslash(lx, c);
    }
  }

  lemma CharKeepsDouble(lx: Lexer, c: char)
    requires NoSingle(lx) && c != '\''
    ensures c != '"' ==> Kept(DOUBLE, Step(lx, c)) <= Count(DOUBLE, lx.token)
    ensures c == '"' && lx.mode != Escape(true) ==> Kept(DOUBLE, Step(lx, c)) <= Count(DOUBLE, lx.token)
    ensures Kept(DOUBLE, Step(lx, c)) <= Count(DOUBLE, lx.token) + if c == '"' then 1 else 0
  {
    StepKeeps(DOUBLE, lx, c);
    CountEmitted(DOUBLE, lx);
  }

  lemma CharKeepsBackslash(lx: Lexer, c: char)
    requires NoSingle(lx) && c == '\\' && !InDouble(lx)
    ensures Kept(BACKSLASH, Step(lx, c)) + Owed(BACKSLASH, Step(lx, c).0) <= Count(BACKSLASH, lx.token)
  {
    CountEmitted(BACKSLASH, lx);
  }

  /** Text without single quotes spoils something if it is read outside double quotes and has marks. */
  lemma {:induction false} TextSpoils(s: string, lx: Lexer)
    requires NoSingle(lx) && Count(SINGLE, s) == 0
    ensures Bounded(lx, Run(s, lx), s) && Spoils(lx, Run(s, lx), s, Count(DOUBLE_OR_BACKSLASH, s) > 0)
  {
    if s != "" {
      var (c, tail) := (s[0], s[1..]);
      assert s == [c] + tail;
      var next := Run([c], lx).0;
      CharSpoils(lx, c);
      RunKeeps(SINGLE, tail, next);
      RunKeeps(BACKSLASH, tail, next);
      if NoSingle(next) {
        TextSpoils(tail, next);
      }
      BoundedThenBounded([c], tail, lx, [c], tail);
      SpoilsThenSpoils([c], tail, lx, [c], tail, c in DOUBLE_OR_BACKSLASH, Count(DOUBLE_OR_BACKSLASH, tail) > 0);
    }
  }

  lemma QuotedIsBounded(v: string, lx: Lexer)
    requires WellFormed(lx)
    ensures Bounded(lx, Run(ShellQuote(v), lx), v)
  {
    ShellQuoteKeepsSingles(v, lx);
    RunKeeps(BACKSLASH, ShellQuote(v), lx);
    CountOfShellQuote(BACKSLASH, v);
  }

  /** A quoted value is read back exactly, or has a single quote too many. */
  lemma QuotedSpoils(v: string, lx: Lexer)
    requires NoSingle(lx) && lx.mode in {Word, Quote('"')}
    ensures Spoils(lx, Run(ShellQuote(v), lx), v, false)
  {
    if lx.mode == Word {
      var quoted := RunShellQuote(v, lx);
      CountAppend(DOUBLE, lx.token, v);
    } else if v != "" && forall i :: 0 <= i < |v| ==> IsSafe(v[i]) {
      CountNone(SINGLE, v);
      CountNone(DOUBLE_OR_BACKSLASH, v);
      TextSpoils(v, lx);
    } else {
      var first := Step(lx, '\'').0;
      assert ShellQuote(v) == ['\''] + (QuoteBody(v) + "'");
      RunQuote('\'', QuoteBody(v) + "'", lx);
      CountOneMore(SINGLE, lx.token, '\'');
      QuoteBodyKeepsSingles(v, first);
      RunKeeps(SINGLE, QuoteBody(v), first);
      RunThenRun(SINGLE, QuoteBody(v), "'", first);
      RunKeeps(SINGLE, "'", Run(QuoteBody(v), first).0);
    }
  }

  lemma EqualsSpoils(lx: Lexer)
    requires NoSingle(lx)
    ensures Bounded(lx, Run("=", lx), "=") && Spoils(lx, Run("=", lx), "=", false)
  {
    CharSpoils(lx, '=');
  }

  lemma AfterEquals(lx: Lexer)
    requires WellFormed(lx)
    ensures Run("=", lx).0.mode !in {Space, Escape(true)}
  {
    RunOne('=', lx);
  }

  /* Quoting, and what it adds */

  lemma {:induction false} CountOfQuoteBody(of: set<char>, s: string)
    requires '\'' !in of && ('"' in of ==> Count(SINGLE, s) == 0)
    ensures Count(of, QuoteBody(s)) == Count(of, s)
  {
    if s != "" {
      CountOfQuoteBody(of, s[1..]);
      var head := if s[0] == '\'' then QUOTED_QUOTE else [s[0]];
      CountAppend(of, head, QuoteBody(s[1..]));
      if s[0] == '\'' {
        CountNone(of, head);
      } else {
        assert head[1..] == "";
      }
    }
  }

  /** Quoting adds single quotes, and double quotes where there are single quotes. */
  lemma CountOfShellQuote(of: set<char>, s: string)
    requires '\'' !in of && ('"' in of ==> Count(SINGLE, s) == 0)
    ensures Count(of, ShellQuote(s)) == Count(of, s)
  {
    var mark := "'";
    CountNone(of, mark);
    if s == "" {
      CountAppend(of, mark, mark);
      assert mark + mark == "''";
    } else {
      CountOfQuoteBody(of, s);
      CountAppend(of, mark, QuoteBody(s));
      CountAppend(of, mark + QuoteBody(s), mark);
    }
  }

  /** A double quote or a backslash is lost, or no single quote is kept. */
  predicate LosesEither(lx: Lexer, run: (Lexer, seq<string>), s: string) {
    || Kept(DOUBLE_OR_BACKSLASH, run) + Owed(DOUBLE_OR_BACKSLASH, run.0) <
      Count(DOUBLE_OR_BACKSLASH, lx.token) + Count(DOUBLE_OR_BACKSLASH, s)
    || (run.0.mode in {Space, Word, Quote('\'')} && Kept(SINGLE, run) <= Count(SINGLE, lx.token))
  }

  lemma CharIsLost(c: char, lx: Lexer)
    requires WellFormed(lx) && lx.mode in {Space, Word, Quote('\'')}
    ensures LosesEither(lx, Step(lx, c), [c])
  {
    CountEmitted(DOUBLE_OR_BACKSLASH, lx);
    CountEmitted(SINGLE, lx);
    CountOneMore(SINGLE, lx.token, c);
    CountOneMore(SINGLE, "", c);
    CountOneMore(DOUBLE_OR_BACKSLASH, "", c);
    assert "" + [c] == [c];
  }

  /** While no double quote and no backslash is lost, every single quote is. */
  lemma {:induction false} SinglesAreLost(s: string, lx: Lexer)
    requires WellFormed(lx) && lx.mode in {Space, Word, Quote('\'')}
    ensures LosesEither(lx, Run(s, lx), s)
  {
    if s != "" {
      var step := Step(lx, s[0]);
      CharIsLost(s[0], lx);
      StepKeeps(DOUBLE_OR_BACKSLASH, lx, s[0]);
      RunKeeps(DOUBLE_OR_BACKSLASH, s[1..], step.0);
      KeptAppend(DOUBLE_OR_BACKSLASH, step.1, Run(s[1..], step.0));
      KeptAppend(SINGLE, step.1, Run(s[1..], step.0));
      assert s == [s[0]] + s[1..];
      CountAppend(DOUBLE_OR_BACKSLASH, [s[0]], s[1..]);
      if step.0.mode in {Space, Word, Quote('\'')} {
        SinglesAreLost(s[1..], step.0);
      }
    }
  }
}
