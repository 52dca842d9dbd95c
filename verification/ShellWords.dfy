/**
 Lines spelled out as shell words: plain characters, characters behind a backslash, and texts in single or double
 quotes, run together into words and set apart by blanks. It is defined apart from the state machine, which splits such
 lines into the words meant, and refuses those that end inside quotes or behind a backslash.
 */
module ShellWords {
  import opened Prelude
  import opened Shlex

  /** In double quotes, a backslash goes before a double quote or a backslash; before anything else it is kept. */
  datatype Inner = Plain(c: char) | Escaped(c: char) | AfterBackslash(c: char)

  datatype Piece = Char(c: char) | Protected(c: char) | Single(s: string) | Double(inner: seq<Inner>)

  predicate NeedsEscape(c: char) {
    c == '"' || c == '\\'
  }

  predicate InnerFits(x: Inner) {
    if x.Escaped? then NeedsEscape(x.c) else !NeedsEscape(x.c)
  }

  predicate Fits(p: Piece) {
    match p
    case Char(c) => c !in {' ', '\t', '\r', '\n', '\'', '"', '\\'}
    case Protected(_) => true
    case Single(s) => '\'' !in s
    case Double(inner) => forall i :: 0 <= i < |inner| ==> InnerFits(inner[i])
  }

  /** A word has at least one piece. */
  predicate IsWord(word: seq<Piece>) {
    word != [] && forall i :: 0 <= i < |word| ==> Fits(word[i])
  }

  function OneSpelled(x: Inner): string {
    if x.Plain? then [x.c] else ['\\', x.c]
  }

  function OneMeant(x: Inner): string {
    if x.AfterBackslash? then ['\\', x.c] else [x.c]
  }

  function InnerSpelled(inner: seq<Inner>): string {
    if inner == [] then "" else OneSpelled(inner[0]) + InnerSpelled(inner[1..])
  }

  function InnerMeant(inner: seq<Inner>): string {
    if inner == [] then "" else OneMeant(inner[0]) + InnerMeant(inner[1..])
  }

  function Spelled(p: Piece): string {
    match p
    case Char(c) => [c]
    case Protected(c) => ['\\', c]
    case Single(s) => "'" + s + "'"
    case Double(inner) => "\"" + InnerSpelled(inner) + "\""
  }

  function Meant(p: Piece): string {
    match p
    case Char(c) => [c]
    case Protected(c) => [c]
    case Single(s) => s
    case Double(inner) => InnerMeant(inner)
  }

  function WordSpelled(word: seq<Piece>): string {
    if word == [] then "" else Spelled(word[0]) + WordSpelled(word[1..])
  }

  function WordMeant(word: seq<Piece>): string {
    if word == [] then "" else Meant(word[0]) + WordMeant(word[1..])
  }

  /* Pieces */

  lemma RunCons(c: char, s: string, lx: Lexer)
    requires Step(lx, c).1 == []
    ensures Run([c] + s, lx) == Run(s, Step(lx, c).0)
  {
    assert ([c] + s)[1..] == s;
    assert [] + Run(s, Step(lx, c).0).1 == Run(s, Step(lx, c).0).1;
  }

  lemma RunThen(s: string, t: string, lx: Lexer)
    requires Run(s, lx).1 == []
    ensures Run(s + t, lx) == Run(t, Run(s, lx).0)
  {
    RunAppend(s, t, lx);
    assert [] + Run(t, Run(s, lx).0).1 == Run(t, Run(s, lx).0).1;
  }

  lemma Regroup(a: string, b: string, c: string)
    ensures a + b + c == a + (b + c)
  {
  }

  lemma {:induction false} RunSingle(s: string, token: string, quoted: bool)
    requires '\'' !in s
    ensures Run(s + "'", Lexer(Quote('\''), token, quoted)) == (Lexer(Word, token + s, true), [])
  {
    var lx := Lexer(Quote('\''), token, quoted);
    if s == "" {
      assert s + "'" == ['\''] + "" && token + s == token;
      RunCons('\'', "", lx);
    } else {
      assert s + "'" == [s[0]] + (s[1..] + "'");
      RunCons(s[0], s[1..] + "'", lx);
      RunSingle(s[1..], token + [s[0]], true);
      assert token + [s[0]] + s[1..] == token + s;
    }
  }

  lemma RunInner(x: Inner, token: string, quoted: bool)
    requires InnerFits(x)
    ensures Run(OneSpelled(x), Lexer(Quote('"'), token, quoted)) == (Lexer(Quote('"'), token + OneMeant(x), true), [])
  {
    var lx := Lexer(Quote('"'), token, quoted);
    if x.Plain? {
      RunOne(x.c, lx);
    } else {
      assert OneSpelled(x) == ['\\'] + [x.c];
      RunCons('\\', [x.c], lx);
      RunOne(x.c, Lexer(Escape(true), token, true));
      assert token + "\\" + [x.c] == token + ['\\', x.c] && token + "" + [x.c] == token + [x.c];
    }
  }

  lemma {:induction false} RunDouble(inner: seq<Inner>, token: string, quoted: bool)
    requires forall i :: 0 <= i < |inner| ==> InnerFits(inner[i])
    ensures
      Run(InnerSpelled(inner) + "\"", Lexer(Quote('"'), token, quoted)) ==
      (Lexer(Word, token + InnerMeant(inner), true), [])
  {
    var lx := Lexer(Quote('"'), token, quoted);
    if inner == [] {
      assert InnerSpelled(inner) + "\"" == ['"'] + "" && token + InnerMeant(inner) == token;
      RunCons('"', "", lx);
    } else {
      RunInner(inner[0], token, quoted);
      RunThen(OneSpelled(inner[0]), InnerSpelled(inner[1..]) + "\"", lx);
      RunDouble(inner[1..], token + OneMeant(inner[0]), true);
      Regroup(OneSpelled(inner[0]), InnerSpelled(inner[1..]), "\"");
      Regroup(token, OneMeant(inner[0]), InnerMeant(inner[1..]));
    }
  }

  /** Whatever word it is in, a piece adds exactly what it means. */
  lemma RunPiece(p: Piece, token: string, quoted: bool)
    requires Fits(p)
    ensures
      Run(Spelled(p), Lexer(Word, token, quoted)) ==
      (Lexer(Word, token + Meant(p), quoted || p.Single? || p.Double?), [])
  {
    var lx := Lexer(Word, token, quoted);
    match p
    case Char(c) =>
      RunOne(c, lx);
    case Protected(c) =>
      assert Spelled(p) == ['\\'] + [c];
      RunCons('\\', [c], lx);
      RunOne(c, Lexer(Escape(false), token, quoted));
      assert token + "" + [c] == token + [c];
    case Single(s) =>
      assert Spelled(p) == ['\''] + (s + "'");
      RunCons('\'', s + "'", lx);
      RunSingle(s, token, quoted);
    case Double(inner) =>
      assert Spelled(p) == ['"'] + (InnerSpelled(inner) + "\"");
      RunCons('"', InnerSpelled(inner) + "\"", lx);
      RunDouble(inner, token, quoted);
  }

  predicate IsQuoting(word: seq<Piece>) {
    exists i :: 0 <= i < |word| && (word[i].Single? || word[i].Double?)
  }

  lemma {:induction false} RunWord(word: seq<Piece>, token: string, quoted: bool)
    requires forall i :: 0 <= i < |word| ==> Fits(word[i])
    ensures
      Run(WordSpelled(word), Lexer(Word, token, quoted)) ==
      (Lexer(Word, token + WordMeant(word), quoted || IsQuoting(word)), [])
  {
    if word == [] {
      assert token + WordMeant(word) == token;
    } else {
      var (p, tail) := (word[0], word[1..]);
      RunPiece(p, token, quoted);
      RunThen(Spelled(p), WordSpelled(tail), Lexer(Word, token, quoted));
      RunWord(tail, token + Meant(p), quoted || p.Single? || p.Double?);
      Regroup(token, Meant(p), WordMeant(tail));
      assert IsQuoting(word) == (p.Single? || p.Double? || IsQuoting(tail));
    }
  }

  /** The state of the machine behind a word, of which there is something to emit. */
  function Behind(word: seq<Piece>): Lexer {
    Lexer(Word, WordMeant(word), IsQuoting(word))
  }

  lemma LexWord(word: seq<Piece>, rest: string)
    requires IsWord(word)
    ensures Lex(WordSpelled(word) + rest, START) == Lex(rest, Behind(word))
    ensures Emitted(Behind(word)) == [WordMeant(word)]
  {
    StartIsEmptyWord(WordSpelled(word) + rest);
    RunWord(word, "", false);
    assert "" + WordMeant(word) == WordMeant(word);
    LexRun(WordSpelled(word), rest, Lexer(Word, "", false));
    PrependNothing(Lex(rest, Behind(word)));
    assert word[0].Char? || word[0].Protected? ==> WordMeant(word) != "";
  }

  /* Lines */

  predicate AreBlanks(s: string) {
    forall i :: 0 <= i < |s| ==> s[i] in {' ', '\t', '\r', '\n'}
  }

  /** Blanks before, between and after the words; only between words must there be some. */
  predicate IsLine(words: seq<seq<Piece>>, blanks: seq<string>) {
    && |blanks| == |words| + 1
    && (forall i :: 0 <= i < |words| ==> IsWord(words[i]))
    && (forall i :: 0 <= i < |blanks| ==> AreBlanks(blanks[i]))
    && (forall i :: 0 < i < |words| ==> blanks[i] != "")
  }

  function LineSpelled(words: seq<seq<Piece>>, blanks: seq<string>): string
    requires |blanks| == |words| + 1
  {
    if words == [] then blanks[0]
    else blanks[0] + (WordSpelled(words[0]) + LineSpelled(words[1..], blanks[1..]))
  }

  function LineMeant(words: seq<seq<Piece>>): seq<string> {
    if words == [] then [] else [WordMeant(words[0])] + LineMeant(words[1..])
  }

  /** Nothing read yet is the same as an empty word not begun. */
  lemma StartIsEmptyWord(s: string)
    ensures Lex(s, START) == Lex(s, Lexer(Word, "", false))
  {
    if s != "" {
      var c := s[0];
      assert "" + [c] == [c];
      assert Step(START, c) == Step(Lexer(Word, "", false), c);
    }
  }

  lemma {:induction false} LexBlanks(blanks: string, rest: string, lx: Lexer)
    requires AreBlanks(blanks) && blanks != "" && (lx.mode == Word || lx == START)
    ensures Lex(blanks + rest, lx) == Prepend(Emitted(lx), Lex(rest, START))
    decreases |blanks|
  {
    assert (blanks + rest)[1..] == blanks[1..] + rest;
    if blanks[1..] == "" {
      assert blanks[1..] + rest == rest;
    } else {
      LexBlanks(blanks[1..], rest, START);
      PrependNothing(Lex(rest, START));
    }
  }

  /** Blanks, or none at the start of a line. */
  lemma LexLeading(blanks: string, rest: string)
    requires AreBlanks(blanks)
    ensures Lex(blanks + rest, START) == Lex(rest, START)
  {
    if blanks == "" {
      assert blanks + rest == rest;
    } else {
      LexBlanks(blanks, rest, START);
      PrependNothing(Lex(rest, START));
    }
  }

  lemma TailIsLine(words: seq<seq<Piece>>, blanks: seq<string>)
    requires IsLine(words, blanks) && words != []
    ensures IsLine(words[1..], blanks[1..]) && IsWord(words[0]) && AreBlanks(blanks[0]) && AreBlanks(blanks[1])
    ensures |words| > 1 ==> blanks[1] != ""
  {
  }

  /** Behind a word come blanks, which end it, and what follows them is split as a line of its own. */
  lemma LexBehind(word: seq<Piece>, blanks: string, rest: string)
    requires IsWord(word) && AreBlanks(blanks) && blanks != ""
    ensures
      Lex(WordSpelled(word) + (blanks + rest), START) == Prepend([WordMeant(word)], Lex(blanks + rest, START))
  {
    LexWord(word, blanks + rest);
    LexBlanks(blanks, rest, Behind(word));
    LexLeading(blanks, rest);
  }

  lemma LineBegins(words: seq<seq<Piece>>, blanks: seq<string>, rest: string) returns (more: string)
    requires |blanks| == |words| + 1
    ensures LineSpelled(words, blanks) + rest == blanks[0] + more
  {
    more := if words == [] then rest else WordSpelled(words[0]) + LineSpelled(words[1..], blanks[1..]) + rest;
    assert LineSpelled(words, blanks) + rest == blanks[0] + more;
  }

  /** A line that ends in blanks gives its words, and then those of whatever follows. */
  lemma {:induction false} LexLineThen(words: seq<seq<Piece>>, blanks: seq<string>, rest: string)
    requires IsLine(words, blanks) && (words == [] || blanks[|words|] != "")
    ensures Lex(LineSpelled(words, blanks) + rest, START) == Prepend(LineMeant(words), Lex(rest, START))
    decreases |words|
  {
    if words == [] {
      LexLeading(blanks[0], rest);
      PrependNothing(Lex(rest, START));
    } else {
      TailIsLine(words, blanks);
      var tail := LineSpelled(words[1..], blanks[1..]) + rest;
      assert LineSpelled(words, blanks) + rest == blanks[0] + (WordSpelled(words[0]) + tail);
      LexLeading(blanks[0], WordSpelled(words[0]) + tail);
      var more := LineBegins(words[1..], blanks[1..], rest);
      LexBehind(words[0], blanks[1], more);
      LexLineThen(words[1..], blanks[1..], rest);
      PrependTwice([WordMeant(words[0])], LineMeant(words[1..]), Lex(rest, START));
    }
  }

  lemma SplitsOne(word: seq<Piece>, blanks: string)
    requires IsWord(word) && AreBlanks(blanks)
    ensures Split(blanks + WordSpelled(word)) == Ok([WordMeant(word)])
  {
    LexLeading(blanks, WordSpelled(word));
    LexWord(word, "");
    assert WordSpelled(word) + "" == WordSpelled(word);
    assert Lex("", Behind(word)) == Ok(Emitted(Behind(word)));
  }

  /** A line is split into exactly the words meant. */
  lemma {:induction false} SplitsLine(words: seq<seq<Piece>>, blanks: seq<string>)
    requires IsLine(words, blanks)
    ensures Split(LineSpelled(words, blanks)) == Ok(LineMeant(words))
    decreases |words|
  {
    if words == [] || blanks[|words|] != "" {
      LexLineThen(words, blanks, "");
      assert LineSpelled(words, blanks) + "" == LineSpelled(words, blanks);
      assert Lex("", START) == Ok([]) && LineMeant(words) + [] == LineMeant(words);
    } else if |words| == 1 {
      TailIsLine(words, blanks);
      SplitsOne(words[0], blanks[0]);
      assert LineMeant(words) == [WordMeant(words[0])] + LineMeant([]) == [WordMeant(words[0])];
      assert LineSpelled(words[1..], blanks[1..]) == "";
      assert LineSpelled(words, blanks) == blanks[0] + WordSpelled(words[0]);
    } else {
      TailIsLine(words, blanks);
      SplitsMore(words, blanks);
      SplitsLine(words[1..], blanks[1..]);
    }
  }

  lemma SplitsMore(words: seq<seq<Piece>>, blanks: seq<string>)
    requires IsLine(words, blanks) && |words| > 1
    ensures
      Split(LineSpelled(words, blanks)) ==
      Prepend([WordMeant(words[0])], Split(LineSpelled(words[1..], blanks[1..])))
  {
    TailIsLine(words, blanks);
    var tail := LineSpelled(words[1..], blanks[1..]);
    LexLeading(blanks[0], WordSpelled(words[0]) + tail);
    var more := LineBegins(words[1..], blanks[1..], "");
    assert tail + "" == tail;
    LexBehind(words[0], blanks[1], more);
  }

  /* Lines that are refused */

  /** Quotes, or a backslash, that the line ends in. */
  datatype Open =
    | OpenSingle(s: string) | OpenDouble(inner: seq<Inner>) | OpenEscape | OpenDoubleEscape(inner: seq<Inner>)

  predicate OpenFits(o: Open) {
    match o
    case OpenSingle(s) => '\'' !in s
    case OpenDouble(inner) => forall i :: 0 <= i < |inner| ==> InnerFits(inner[i])
    case OpenEscape => true
    case OpenDoubleEscape(inner) => forall i :: 0 <= i < |inner| ==> InnerFits(inner[i])
  }

  predicate IsEscape(o: Open) {
    o.OpenEscape? || o.OpenDoubleEscape?
  }

  function OpenSpelled(o: Open): string {
    match o
    case OpenSingle(s) => "'" + s
    case OpenDouble(inner) => "\"" + InnerSpelled(inner)
    case OpenEscape => "\\"
    case OpenDoubleEscape(inner) => "\"" + InnerSpelled(inner) + "\\"
  }

  lemma {:induction false} RunOpenSingle(s: string, token: string, quoted: bool)
    requires '\'' !in s
    ensures Run(s, Lexer(Quote('\''), token, quoted)).0.mode == Quote('\'')
  {
    if s != "" {
      RunOpenSingle(s[1..], token + [s[0]], true);
    }
  }

  lemma {:induction false} RunOpenDouble(inner: seq<Inner>, token: string, quoted: bool)
    requires forall i :: 0 <= i < |inner| ==> InnerFits(inner[i])
    ensures Run(InnerSpelled(inner), Lexer(Quote('"'), token, quoted)).0.mode == Quote('"')
  {
    if inner != [] {
      RunInner(inner[0], token, quoted);
      RunAppend(OneSpelled(inner[0]), InnerSpelled(inner[1..]), Lexer(Quote('"'), token, quoted));
      RunOpenDouble(inner[1..], token + OneMeant(inner[0]), true);
    }
  }

  lemma RunOpen(o: Open, token: string, quoted: bool)
    requires OpenFits(o)
    ensures
      Run(OpenSpelled(o), Lexer(Word, token, quoted)).0.mode ==
      match o
      case OpenSingle(_) => Quote('\'')
      case OpenDouble(_) => Quote('"')
      case OpenEscape => Escape(false)
      case OpenDoubleEscape(_) => Escape(true)
  {
    var lx := Lexer(Word, token, quoted);
    match o
    case OpenSingle(s) =>
      RunCons('\'', s, lx);
      RunOpenSingle(s, token, quoted);
      assert OpenSpelled(o) == ['\''] + s;
    case OpenDouble(inner) =>
      RunCons('"', InnerSpelled(inner), lx);
      RunOpenDouble(inner, token, quoted);
      assert OpenSpelled(o) == ['"'] + InnerSpelled(inner);
    case OpenEscape =>
      RunOne('\\', lx);
    case OpenDoubleEscape(inner) =>
      RunCons('"', InnerSpelled(inner), lx);
      RunOpenDouble(inner, token, quoted);
      assert "\"" + InnerSpelled(inner) == ['"'] + InnerSpelled(inner);
      RunAppend("\"" + InnerSpelled(inner), "\\", lx);
      RunOne('\\', Run("\"" + InnerSpelled(inner), lx).0);
  }

  /**
   A line that ends inside quotes, or behind a backslash, is refused, whatever came before in it: complete words, and
   the beginning of one.
   */
  lemma RefusesOpen(words: seq<seq<Piece>>, blanks: seq<string>, begun: seq<Piece>, o: Open)
    requires IsLine(words, blanks) && (words == [] || blanks[|words|] != "")
    requires (forall i :: 0 <= i < |begun| ==> Fits(begun[i])) && OpenFits(o)
    ensures
      Split(LineSpelled(words, blanks) + (WordSpelled(begun) + OpenSpelled(o))) ==
      Err(if IsEscape(o) then NoEscapedCharacter else NoClosingQuotation)
  {
    var rest := WordSpelled(begun) + OpenSpelled(o);
    var lx := Lexer(Word, "", false);
    LexLineThen(words, blanks, rest);
    StartIsEmptyWord(rest);
    RunWord(begun, "", false);
    RunAppend(WordSpelled(begun), OpenSpelled(o), lx);
    RunOpen(o, "" + WordMeant(begun), IsQuoting(begun));
    LexRun(rest, "", lx);
    assert rest + "" == rest;
  }

  /* Every line is one or the other */

  /** How the inside of double quotes ends: with the quote, at the end of the line, or there behind a backslash. */
  datatype End = Closed(rest: string) | AtEnd | AtBackslash

  function EndSpelled(end: End): string {
    match end
    case Closed(rest) => "\"" + rest
    case AtEnd => ""
    case AtBackslash => "\\"
  }

  lemma InnerCons(x: Inner, inner: seq<Inner>)
    ensures InnerSpelled([x] + inner) == OneSpelled(x) + InnerSpelled(inner)
  {
    assert ([x] + inner)[1..] == inner;
  }

  lemma {:induction false} ReadInner(s: string) returns (inner: seq<Inner>, end: End)
    ensures forall i :: 0 <= i < |inner| ==> InnerFits(inner[i])
    ensures s == InnerSpelled(inner) + EndSpelled(end)
  {
    if s == "" {
      inner, end := [], AtEnd;
    } else if s[0] == '"' {
      inner, end := [], Closed(s[1..]);
      assert s == "\"" + s[1..];
    } else if s == "\\" {
      inner, end := [], AtBackslash;
    } else {
      var escape := s[0] == '\\';
      var (c, rest) := if escape then (s[1], s[2..]) else (s[0], s[1..]);
      var x := if !escape then Plain(c) else if NeedsEscape(c) then Escaped(c) else AfterBackslash(c);
      var more;
      more, end := ReadInner(rest);
      inner := [x] + more;
      InnerCons(x, more);
      assert s == OneSpelled(x) + rest;
      Regroup(OneSpelled(x), InnerSpelled(more), EndSpelled(end));
    }
  }

  lemma {:induction false} ReadSingle(s: string) returns (inside: string, closed: bool, rest: string)
    ensures '\'' !in inside && s == inside + if closed then "'" + rest else ""
  {
    if s == "" {
      inside, closed, rest := "", false, "";
    } else if s[0] == '\'' {
      inside, closed, rest := "", true, s[1..];
      assert s == "'" + s[1..];
    } else {
      inside, closed, rest := ReadSingle(s[1..]);
      inside := [s[0]] + inside;
    }
  }

  datatype Read = Whole(p: Piece, rest: string) | Part(o: Open)

  predicate IsReadOf(s: string, r: Read) {
    match r
    case Whole(p, rest) => Fits(p) && s == Spelled(p) + rest
    case Part(o) => OpenFits(o) && s == OpenSpelled(o)
  }

  lemma ReadPiece(s: string) returns (r: Read)
    requires s != "" && !IsWhitespace(s[0])
    ensures IsReadOf(s, r) && (r.Whole? ==> |r.rest| < |s|)
  {
    var tail := s[1..];
    assert s == [s[0]] + tail;
    if s[0] == '\'' {
      var inside, closed, rest := ReadSingle(tail);
      r := if closed then Whole(Single(inside), rest) else Part(OpenSingle(inside));
      assert closed ==> s == "'" + inside + "'" + rest;
    } else if s[0] == '"' {
      var inner, end := ReadInner(tail);
      match end
      case Closed(rest) =>
        r := Whole(Double(inner), rest);
        assert s == "\"" + InnerSpelled(inner) + "\"" + rest;
      case AtEnd =>
        r := Part(OpenDouble(inner));
      case AtBackslash =>
        r := Part(OpenDoubleEscape(inner));
        assert s == "\"" + InnerSpelled(inner) + "\\";
    } else if s[0] == '\\' {
      if tail == "" {
        r := Part(OpenEscape);
      } else {
        r := Whole(Protected(s[1]), s[2..]);
      }
    } else {
      r := Whole(Char(s[0]), tail);
    }
  }

  lemma WordCons(p: Piece, word: seq<Piece>)
    ensures WordSpelled([p] + word) == Spelled(p) + WordSpelled(word)
  {
    assert ([p] + word)[1..] == word;
  }

  /** The pieces up to a blank or the end; or up to what is left open. */
  lemma {:induction false} ReadWord(s: string) returns (word: seq<Piece>, rest: string, o: Option<Open>)
    ensures forall i :: 0 <= i < |word| ==> Fits(word[i])
    ensures s == WordSpelled(word) + if o.Some? then OpenSpelled(o.value) else rest
    ensures o.Some? ==> OpenFits(o.value)
    ensures o.None? ==> rest == "" || IsWhitespace(rest[0])
    ensures o.None? && s != "" && !IsWhitespace(s[0]) ==> word != []
    decreases |s|
  {
    if s == "" || IsWhitespace(s[0]) {
      word, rest, o := [], s, None;
    } else {
      var r := ReadPiece(s);
      match r
      case Part(open) =>
        word, rest, o := [], "", Some(open);
      case Whole(p, tail) =>
        var more;
        more, rest, o := ReadWord(tail);
        word := [p] + more;
        WordCons(p, more);
        Regroup(Spelled(p), WordSpelled(more), if o.Some? then OpenSpelled(o.value) else rest);
    }
  }

  lemma {:induction false} ReadBlanks(s: string) returns (blanks: string, rest: string)
    ensures s == blanks + rest && AreBlanks(blanks) && (rest == "" || !IsWhitespace(rest[0]))
    ensures s != "" && IsWhitespace(s[0]) ==> blanks != ""
  {
    if s == "" || !IsWhitespace(s[0]) {
      blanks, rest := "", s;
    } else {
      blanks, rest := ReadBlanks(s[1..]);
      blanks := [s[0]] + blanks;
    }
  }

  /** What is left open at the end of a line: the beginning of a word, and quotes or a backslash. */
  datatype Unfinished = Unfinished(begun: seq<Piece>, o: Open)

  predicate IsUnfinished(u: Unfinished) {
    (forall i :: 0 <= i < |u.begun| ==> Fits(u.begun[i])) && OpenFits(u.o)
  }

  /** The line is spelled by the words and blanks, and what is left open behind them, if anything. */
  ghost predicate IsSpelling(line: string, words: seq<seq<Piece>>, blanks: seq<string>, u: Option<Unfinished>) {
    && IsLine(words, blanks)
    && match u
      case None => line == LineSpelled(words, blanks)
      case Some(open) =>
        && IsUnfinished(open) && (words == [] || blanks[|words|] != "")
        && line == LineSpelled(words, blanks) + (WordSpelled(open.begun) + OpenSpelled(open.o))
  }

  lemma ConsLine(head: string, word: seq<Piece>, words: seq<seq<Piece>>, blanks: seq<string>, rest: string)
    requires IsLine(words, blanks) && IsWord(word) && AreBlanks(head) && (words != [] ==> blanks[0] != "")
    ensures IsLine([word] + words, [head] + blanks)
    ensures
      LineSpelled([word] + words, [head] + blanks) + rest ==
      head + (WordSpelled(word) + (LineSpelled(words, blanks) + rest))
  {
    assert ([word] + words)[1..] == words && ([head] + blanks)[1..] == blanks;
  }

  /** Every line has a spelling. */
  lemma {:induction false} ReadLine(line: string)
    returns (words: seq<seq<Piece>>, blanks: seq<string>, u: Option<Unfinished>)
    ensures IsSpelling(line, words, blanks, u)
    ensures line != "" && IsWhitespace(line[0]) ==> blanks[0] != ""
    decreases |line|
  {
    var head, rest := ReadBlanks(line);
    if rest == "" {
      words, blanks, u := [], [head], None;
    } else {
      var word, tail, o := ReadWord(rest);
      if o.Some? {
        words, blanks, u := [], [head], Some(Unfinished(word, o.value));
      } else {
        TailIsShorter(word, tail);
        words, blanks, u := ReadLine(tail);
        FirstBlanks(words, blanks, u, tail);
        var open := if u.Some? then WordSpelled(u.value.begun) + OpenSpelled(u.value.o) else "";
        ConsLine(head, word, words, blanks, open);
        var longer := LineSpelled([word] + words, [head] + blanks);
        assert LineSpelled(words, blanks) + "" == LineSpelled(words, blanks) && longer + "" == longer;
        words, blanks := [word] + words, [head] + blanks;
      }
    }
  }

  lemma TailIsShorter(word: seq<Piece>, tail: string)
    requires word != []
    ensures |tail| < |WordSpelled(word) + tail|
  {
  }

  lemma FirstBlanks(words: seq<seq<Piece>>, blanks: seq<string>, u: Option<Unfinished>, line: string)
    requires IsSpelling(line, words, blanks, u)
    requires line == "" || IsWhitespace(line[0])
    requires line != "" ==> blanks[0] != ""
    ensures words != [] ==> blanks[0] != ""
    ensures u.Some? ==> blanks[|words|] != ""
  {
  }

  /** The result that a spelling calls for. */
  function Meaning(words: seq<seq<Piece>>, u: Option<Unfinished>): Result<seq<string>, LexError> {
    if u.None? then Ok(LineMeant(words))
    else if IsEscape(u.value.o) then Err(NoEscapedCharacter)
    else Err(NoClosingQuotation)
  }

  /**
   Splitting is exact: every line has a spelling, and whatever spelling of a line is taken, the result is what it calls
   for.
   */
  lemma SplitIsExact(line: string, r: Result<seq<string>, LexError>)
    ensures
      Split(line) == r <==> exists words, blanks, u :: IsSpelling(line, words, blanks, u) && Meaning(words, u) == r
  {
    var words, blanks, u := ReadLine(line);
    SpellingSplits(line, words, blanks, u);
    forall ws, bs, v | IsSpelling(line, ws, bs, v)
      ensures Split(line) == Meaning(ws, v)
    {
      SpellingSplits(line, ws, bs, v);
    }
  }

  lemma SpellingSplits(line: string, words: seq<seq<Piece>>, blanks: seq<string>, u: Option<Unfinished>)
    requires IsSpelling(line, words, blanks, u)
    ensures Split(line) == Meaning(words, u)
  {
    match u
    case None => SplitsLine(words, blanks);
    case Some(open) => RefusesOpen(words, blanks, open.begun, open.o);
  }
}
