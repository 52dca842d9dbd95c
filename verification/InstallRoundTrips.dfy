/**
 Which dicts of install options survive being printed and parsed, whatever their keys: those that are lost are so by the
 quotes, backslashes and blanks that the line has too few or too many of.
 */
module InstallRoundTrips {
  import opened Prelude
  import opened Shlex
  import opened InstallOptions

  /* Keys that are not plain, and values that need quotes: what does not survive */

  /** The first equals sign of the word, if any, is preceded by a plain key or nothing; if there is none, it is one. */
  predicate NamesPlainly(word: string) {
    if '=' in word then !HasSpecial(word[..IndexOfEquals(word)]) else PlainKey(word)
  }

  lemma ClearPart(s: string, i: nat, j: nat)
    requires i <= j <= |s| && !HasSpecial(s)
    ensures !HasSpecial(s[i..j])
  {
    assert forall k :: 0 <= k < |s[i..j]| ==> s[i..j][k] == s[i + k];
  }

  lemma ClearWordNamesPlainly(word: string)
    requires IsClear(word)
    ensures NamesPlainly(word)
  {
    if '=' in word {
      ClearPart(word, 0, IndexOfEquals(word));
    }
  }

  lemma SettingNamesPlainly(name: string, value: string)
    requires !HasSpecial(name)
    ensures NamesPlainly(name + "=" + value)
  {
    var word := name + "=" + value;
    assert word[|name|] == '=';
    var i := IndexOfEquals(word);
    assert i <= |name| && word[..i] == name[..i];
    ClearPart(name, 0, i);
  }

  /** Only plain keys are ever read from such words. */
  lemma {:induction false} PlainNamesPlainKeys(d: Options, words: seq<string>)
    requires forall w :: w in words ==> NamesPlainly(w)
    requires forall k :: k in d ==> PlainKey(k)
    ensures forall k :: k in AbsorbAll(d, words) ==> PlainKey(k)
    decreases |words|
  {
    if words != [] {
      assert words[0] in words;
      PlainNamesPlainKeys(Absorb(d, words[0]), words[1..]);
    }
  }

  /** The words of one printed entry, whatever its key, up to the blank or the end that follows it. */
  lemma LexAnyEntry(e: Entry, rest: string) returns (words: seq<string>, last: Lexer)
    requires Count(MARKS, e.key) == 0
    ensures last.mode in {Space, Word} && (last.mode == Space ==> last == START)
    ensures forall w :: w in words + Emitted(last) ==> NamesPlainly(w)
    ensures Lex(Printed(e, true) + rest, START) == Prepend(words, Lex(rest, last))
  {
    match e
    case Bare(key) =>
      words, last := LexUnquoted(key, rest, START);
      forall w | w in words + Emitted(last)
        ensures NamesPlainly(w)
      {
        ClearWordNamesPlainly(w);
      }
    case Setting(key, value) =>
      var shown := ShellQuote(value);
      var next;
      words, next := LexUnquoted(key, ['='] + (shown + rest), START);
      assert Printed(e, true) + rest == key + (['='] + (shown + rest));
      LexCons('=', shown + rest, next);
      assert Step(next, '=').0 == Lexer(Word, next.token + "=", false);
      LexShellQuote(value, rest, next.token + "=", false);
      var q :| Lex(shown + rest, Lexer(Word, next.token + "=", false)) ==
        Lex(rest, Lexer(Word, next.token + "=" + value, q));
      last := Lexer(Word, next.token + "=" + value, q);
      SettingNamesPlainly(next.token, value);
      forall w | w in words
        ensures NamesPlainly(w)
      {
        ClearWordNamesPlainly(w);
      }
  }

  lemma OneMoreEntry(es: seq<Entry>, quote: bool)
    requires |es| > 1
    ensures Join(PrintedAll(es, quote)) == Printed(es[0], quote) + " " + Join(PrintedAll(es[1..], quote))
  {
    assert PrintedAll(es, quote)[1..] == PrintedAll(es[1..], quote);
    assert Printed(es[0], quote) + " " + Join(PrintedAll(es[1..], quote)) ==
      Printed(es[0], quote) + (" " + Join(PrintedAll(es[1..], quote)));
  }

  predicate AllNamePlainly(r: Result<seq<string>, LexError>) {
    r.Ok? && forall w :: w in r.value ==> NamesPlainly(w)
  }

  lemma LastAnyEntry(e: Entry)
    requires Count(MARKS, e.key) == 0
    ensures AllNamePlainly(Split(Printed(e, true)))
  {
    var words, last := LexAnyEntry(e, "");
    assert Printed(e, true) + "" == Printed(e, true);
    assert Lex("", last) == Finish(last);
  }

  lemma FirstAnyEntry(e: Entry, rest: string)
    requires Count(MARKS, e.key) == 0 && AllNamePlainly(Split(rest))
    ensures AllNamePlainly(Split(Printed(e, true) + " " + rest))
  {
    assert Printed(e, true) + " " + rest == Printed(e, true) + (" " + rest);
    var words, last := LexAnyEntry(e, " " + rest);
    assert (" " + rest)[1..] == rest && Step(last, ' ') == (START, Emitted(last));
    assert Lex(" " + rest, last) == Ok(Emitted(last) + Split(rest).value);
  }

  lemma {:induction false} AllEntriesNamePlainly(es: seq<Entry>)
    requires forall e :: e in es ==> Count(MARKS, e.key) == 0
    ensures AllNamePlainly(Split(Join(PrintedAll(es, true))))
  {
    if |es| == 1 {
      LastAnyEntry(es[0]);
    } else if |es| > 1 {
      AllEntriesNamePlainly(es[1..]);
      OneMoreEntry(es, true);
      FirstAnyEntry(es[0], Join(PrintedAll(es[1..], true)));
    }
  }

  lemma {:induction false} KeysOfEntries(d: Options, order: seq<string>)
    requires forall k :: k in order ==> k in d
    ensures forall e :: e in EntriesOf(d, order) ==> e.key in order
    decreases |order|
  {
    if order != [] {
      KeysOfEntries(d, order[..|order| - 1]);
    }
  }

  /* Counting quotes and backslashes */

  function CountItems(of: set<char>, key: string, items: seq<Option<string>>): nat
    decreases |items|
  {
    if items == [] then 0
    else CountItems(of, key, items[..|items| - 1]) + Count(of, key) + Count(of, ItemText(items[|items| - 1]))
  }

  /** How many of the characters there are in what is printed for a key. */
  function CountFor(of: set<char>, key: string, v: OptValue): nat {
    match v
    case NoValue => Count(of, key)
    case Text(t) => Count(of, key) + Count(of, t)
    case Repeated(items) => CountItems(of, key, items)
  }

  function CountAt(of: set<char>, d: Options, key: string): nat {
    if key in d then CountFor(of, key, d[key]) else 0
  }

  function CountIn(of: set<char>, d: Options, order: seq<string>): nat
    decreases |order|
  {
    if order == [] then 0 else CountIn(of, d, order[..|order| - 1]) + CountAt(of, d, order[|order| - 1])
  }

  lemma CountOfOneMore(of: set<char>, key: string, items: seq<Option<string>>, item: Option<string>)
    ensures
      CountItems(of, key, items + [item]) == CountItems(of, key, items) + Count(of, key) + Count(of, ItemText(item))
  {
    assert (items + [item])[..|items|] == items;
  }

  lemma CountOfGrown(of: set<char>, key: string, was: Option<OptValue>, value: string)
    requires of <= MARKS + BLANKS
    ensures
      CountFor(of, key, Grown(was, value)) ==
      (if was.Some? then CountFor(of, key, was.value) else 0) + Count(of, key) + Count(of, value)
  {
    match was
    case None =>
    case Some(Repeated(items)) => CountOfOneMore(of, key, items, Some(value));
    case Some(Text(t)) =>
      CountOfOneMore(of, key, [], Some(t));
      CountOfOneMore(of, key, [Some(t)], Some(value));
      assert [] + [Some(t)] == [Some(t)] && [Some(t)] + [Some(value)] == [Some(t), Some(value)];
    case Some(NoValue) =>
      CountNone(of, "None");
      var none: seq<Option<string>> := [None];
      CountOfOneMore(of, key, [], None);
      CountOfOneMore(of, key, none, Some(value));
      assert [] + none == none && none + [Some(value)] == [None, Some(value)];
  }

  lemma {:induction false} CountInUpdated(of: set<char>, d: Options, order: seq<string>, key: string, v: OptValue)
    requires forall i, j :: 0 <= i < j < |order| ==> order[i] != order[j]
    ensures
      CountIn(of, d[key := v], order) + (if key in order then CountAt(of, d, key) else 0) ==
      CountIn(of, d, order) + if key in order then CountFor(of, key, v) else 0
    decreases |order|
  {
    if order != [] {
      var init, last := order[..|order| - 1], order[|order| - 1];
      CountInUpdated(of, d, init, key, v);
      assert order == init + [last] && last !in init;
    }
  }

  lemma CountOfAbsorb(of: set<char>, d: Options, token: string, order: seq<string>)
    requires of <= MARKS
    requires forall i, j :: 0 <= i < j < |order| ==> order[i] != order[j]
    ensures CountIn(of, Absorb(d, token), order) <= CountIn(of, d, order) + Count(of, token)
  {
    if '=' !in token {
      CountInUpdated(of, d, order, token, NoValue);
    } else {
      var i := IndexOfEquals(token);
      var (name, value) := (token[..i], token[i + 1..]);
      assert token == name + "=" + value;
      CountOfSetting(of, name, value);
      CountInUpdated(of, d, order, name, Grown(Find(d, name), value));
      CountOfGrown(of, name, Find(d, name), value);
    }
  }

  lemma {:induction false} CountOfAbsorbAll(of: set<char>, d: Options, tokens: seq<string>, order: seq<string>)
    requires of <= MARKS
    requires forall i, j :: 0 <= i < j < |order| ==> order[i] != order[j]
    ensures CountIn(of, AbsorbAll(d, tokens), order) <= CountIn(of, d, order) + CountAll(of, tokens)
    decreases |tokens|
  {
    if tokens != [] {
      CountOfAbsorb(of, d, tokens[0], order);
      CountOfAbsorbAll(of, Absorb(d, tokens[0]), tokens[1..], order);
    }
  }

  lemma {:induction false} CountInEmpty(of: set<char>, order: seq<string>)
    ensures CountIn(of, map[], order) == 0
    decreases |order|
  {
    if order != [] {
      CountInEmpty(of, order[..|order| - 1]);
    }
  }

  lemma {:induction false} CountOfJoin(of: set<char>, items: seq<string>)
    ensures Count(of, Join(items)) == CountAll(of, items) + if ' ' in of && items != [] then |items| - 1 else 0
  {
    if |items| == 1 {
      assert items[1..] == [];
    } else if |items| > 1 {
      CountOfJoin(of, items[1..]);
      CountAppend(of, items[0], " ");
      assert " "[1..] == "";
      CountAppend(of, items[0] + " ", Join(items[1..]));
    }
  }

  lemma CountOfSetting(of: set<char>, key: string, value: string)
    requires of <= MARKS + BLANKS
    ensures Count(of, key + "=" + value) == Count(of, key) + Count(of, value)
  {
    assert "="[1..] == "";
    CountAppend(of, key, "=");
    CountAppend(of, key + "=", value);
  }

  lemma CountOfOne(of: set<char>, e: Entry)
    requires of <= MARKS + BLANKS
    ensures CountAll(of, PrintedAll([e], false)) == Count(of, e.key) + if e.Setting? then Count(of, e.value) else 0
  {
    assert PrintedAll([e], false) == [Printed(e, false)] && [Printed(e, false)][1..] == [];
    if e.Setting? {
      CountOfSetting(of, e.key, e.value);
    }
  }

  lemma {:induction false} CountOfSettings(of: set<char>, key: string, items: seq<Option<string>>)
    requires of <= MARKS + BLANKS
    ensures CountAll(of, PrintedAll(Settings(key, items), false)) == CountItems(of, key, items)
    decreases |items|
  {
    if items != [] {
      var init, e := items[..|items| - 1], Setting(key, ItemText(items[|items| - 1]));
      CountOfSettings(of, key, init);
      PrintedAllAppend(Settings(key, init), [e], false);
      CountAllAppend(of, PrintedAll(Settings(key, init), false), PrintedAll([e], false));
      CountOfOne(of, e);
    }
  }

  lemma CountOfEntriesFor(of: set<char>, key: string, v: OptValue)
    requires of <= MARKS + BLANKS
    ensures CountAll(of, PrintedAll(EntriesFor(key, v), false)) == CountFor(of, key, v)
  {
    match v
    case NoValue =>
      CountOfOne(of, Bare(key));
    case Text(t) =>
      CountOfOne(of, Setting(key, t));
    case Repeated(items) =>
      CountOfSettings(of, key, items);
  }

  lemma {:induction false} CountOfEntries(of: set<char>, d: Options, order: seq<string>)
    requires of <= MARKS + BLANKS && forall k :: k in order ==> k in d
    ensures CountAll(of, PrintedAll(EntriesOf(d, order), false)) == CountIn(of, d, order)
    decreases |order|
  {
    if order != [] {
      var init, last := order[..|order| - 1], order[|order| - 1];
      CountOfEntries(of, d, init);
      PrintedAllAppend(EntriesOf(d, init), EntriesFor(last, d[last]), false);
      CountAllAppend(of, PrintedAll(EntriesOf(d, init), false), PrintedAll(EntriesFor(last, d[last]), false));
      CountOfEntriesFor(of, last, d[last]);
    }
  }

  /** Quoting the value makes no difference to the count. */
  predicate CountsAlike(of: set<char>, e: Entry) {
    '\'' !in of && (e.Setting? && '"' in of ==> Count(SINGLE, e.value) == 0)
  }

  lemma {:induction false} CountOfQuoted(of: set<char>, es: seq<Entry>)
    requires of <= MARKS + BLANKS && forall e :: e in es ==> CountsAlike(of, e)
    ensures CountAll(of, PrintedAll(es, true)) == CountAll(of, PrintedAll(es, false))
  {
    if es != [] {
      var e := es[0];
      assert CountsAlike(of, e);
      assert PrintedAll(es, true)[1..] == PrintedAll(es[1..], true);
      assert PrintedAll(es, false)[1..] == PrintedAll(es[1..], false);
      CountOfQuoted(of, es[1..]);
      if e.Setting? {
        CountOfSetting(of, e.key, e.value);
        CountOfSetting(of, e.key, ShellQuote(e.value));
        CountOfShellQuote(of, e.value);
      }
    }
  }

  /* A dict that survives accounts for every character of the line */

  function EntriesIn(d: Options, order: seq<string>): nat
    decreases |order|
  {
    if order == [] then 0
    else
      var last := order[|order| - 1];
      EntriesIn(d, order[..|order| - 1]) + if last in d then |EntriesFor(last, d[last])| else 0
  }

  lemma {:induction false} EntriesInUpdated(d: Options, order: seq<string>, key: string, v: OptValue)
    requires forall i, j :: 0 <= i < j < |order| ==> order[i] != order[j]
    ensures
      EntriesIn(d[key := v], order) + (if key in order && key in d then |EntriesFor(key, d[key])| else 0) ==
      EntriesIn(d, order) + if key in order then |EntriesFor(key, v)| else 0
    decreases |order|
  {
    if order != [] {
      var init, last := order[..|order| - 1], order[|order| - 1];
      EntriesInUpdated(d, init, key, v);
      assert order == init + [last] && last !in init;
    }
  }

  lemma {:induction false} EntriesInOrder(d: Options, order: seq<string>)
    requires forall k :: k in order ==> k in d
    ensures EntriesIn(d, order) == |EntriesOf(d, order)|
    decreases |order|
  {
    if order != [] {
      EntriesInOrder(d, order[..|order| - 1]);
    }
  }

  lemma EntriesOfGrown(key: string, was: Option<OptValue>, value: string)
    ensures
      |EntriesFor(key, Grown(was, value))| == (if was.Some? then |EntriesFor(key, was.value)| else 0) + 1
  {
  }

  /** The entries, each with its blanks and the one that sets it apart from the next. */
  function SizeIn(d: Options, order: seq<string>): nat {
    EntriesIn(d, order) + CountIn(BLANKS, d, order)
  }

  /** A word adds at most its own size, and if that much, it adds all of its other characters. */
  lemma SizeOfAbsorb(of: set<char>, d: Options, token: string, order: seq<string>)
    requires of <= MARKS && forall i, j :: 0 <= i < j < |order| ==> order[i] != order[j]
    ensures
      var next := Absorb(d, token);
      var most := SizeIn(d, order) + 1 + Count(BLANKS, token);
      && SizeIn(next, order) <= most
      && (SizeIn(next, order) == most ==> CountIn(of, next, order) == CountIn(of, d, order) + Count(of, token))
  {
    if '=' !in token {
      EntriesInUpdated(d, order, token, NoValue);
      CountInUpdated(BLANKS, d, order, token, NoValue);
      CountInUpdated(of, d, order, token, NoValue);
    } else {
      var i := IndexOfEquals(token);
      var (name, value) := (token[..i], token[i + 1..]);
      var grown := Grown(Find(d, name), value);
      assert token == name + "=" + value;
      EntriesInUpdated(d, order, name, grown);
      EntriesOfGrown(name, Find(d, name), value);
      CountOfSetting(BLANKS, name, value);
      CountInUpdated(BLANKS, d, order, name, grown);
      CountOfGrown(BLANKS, name, Find(d, name), value);
      CountOfSetting(of, name, value);
      CountInUpdated(of, d, order, name, grown);
      CountOfGrown(of, name, Find(d, name), value);
    }
  }

  lemma {:induction false} SizeOfAbsorbAll(of: set<char>, d: Options, tokens: seq<string>, order: seq<string>)
    requires of <= MARKS && forall i, j :: 0 <= i < j < |order| ==> order[i] != order[j]
    ensures
      var all := AbsorbAll(d, tokens);
      var most := SizeIn(d, order) + |tokens| + CountAll(BLANKS, tokens);
      && SizeIn(all, order) <= most
      && (SizeIn(all, order) == most ==> CountIn(of, all, order) == CountIn(of, d, order) + CountAll(of, tokens))
    decreases |tokens|
  {
    if tokens != [] {
      SizeOfAbsorb(of, d, tokens[0], order);
      SizeOfAbsorbAll(of, Absorb(d, tokens[0]), tokens[1..], order);
    }
  }

  lemma {:induction false} NothingInEmpty(order: seq<string>)
    ensures EntriesIn(map[], order) == 0
    decreases |order|
  {
    if order != [] {
      NothingInEmpty(order[..|order| - 1]);
    }
  }

  lemma BlanksOfLine(es: seq<Entry>)
    requires es != []
    ensures Count(BLANKS, Join(PrintedAll(es, true))) + 1 == CountAll(BLANKS, PrintedAll(es, false)) + |es|
  {
    CountOfJoin(BLANKS, PrintedAll(es, true));
    CountOfQuoted(BLANKS, es);
  }

  lemma SizeOfLine(d: Options, order: seq<string>)
    requires Enumerates(order, d.Keys) && EntriesOf(d, order) != []
    ensures Count(BLANKS, Line(d, order, true)) + 1 == SizeIn(d, order)
  {
    BlanksOfLine(EntriesOf(d, order));
    CountOfEntries(BLANKS, d, order);
    EntriesInOrder(d, order);
  }

  /**
   If a dict is read back, the words read have exactly the quotes and backslashes of its keys and values: there is no
   room for a word that adds nothing, since every word costs a blank.
   */
  lemma ReadExactly(of: set<char>, d: Options, order: seq<string>)
    requires of <= MARKS && Enumerates(order, d.Keys) && EntriesOf(d, order) != []
    requires Parsed(Some(Line(d, order, true))) == Ok(d)
    ensures CountAll(of, Split(Line(d, order, true)).value) == CountIn(of, d, order)
  {
    var words := Split(Line(d, order, true)).value;
    LexSpendsBlanks(Line(d, order, true), START);
    SizeOfLine(d, order);
    SizeOfAbsorbAll(of, map[], words, order);
    NothingInEmpty(order);
    CountInEmpty(BLANKS, order);
    CountInEmpty(of, order);
  }

  /* Keys without single quotes, or values without any */

  lemma EntryIsBounded(e: Entry, lx: Lexer)
    requires WellFormed(lx) && Count(SINGLE, e.key) == 0
    ensures Bounded(lx, Run(Printed(e, true), lx), WordOf(e))
  {
    RunKeeps(SINGLE, e.key, lx);
    RunKeeps(BACKSLASH, e.key, lx);
    if e.Setting? {
      var named := Run(e.key, lx).0;
      CountOneMore(SINGLE, "", '=');
      RunKeeps(SINGLE, "=", named);
      RunKeeps(BACKSLASH, "=", named);
      BoundedThenBounded(e.key, "=", lx, e.key, "=");
      QuotedIsBounded(e.value, Run(e.key + "=", lx).0);
      BoundedThenBounded(e.key + "=", ShellQuote(e.value), lx, e.key + "=", e.value);
    }
  }

  predicate MarkedKey(e: Entry) {
    Count(DOUBLE_OR_BACKSLASH, e.key) > 0
  }

  lemma EntrySpoils(e: Entry, lx: Lexer)
    requires NoSingle(lx) && Count(SINGLE, e.key) == 0
    ensures Spoils(lx, Run(Printed(e, true), lx), WordOf(e), MarkedKey(e))
  {
    TextSpoils(e.key, lx);
    if e.Setting? {
      var named := Run(e.key, lx).0;
      CountOneMore(SINGLE, "", '=');
      RunKeeps(SINGLE, "=", named);
      RunKeeps(BACKSLASH, "=", named);
      if NoSingle(named) {
        EqualsSpoils(named);
      }
      BoundedThenBounded(e.key, "=", lx, e.key, "=");
      SpoilsThenSpoils(e.key, "=", lx, e.key, "=", MarkedKey(e), false);
      var begun := Run(e.key + "=", lx).0;
      RunThenRun(SINGLE, e.key, "=", lx);
      QuotedIsBounded(e.value, begun);
      if NoSingle(begun) {
        AfterEquals(named);
        QuotedSpoils(e.value, begun);
      }
      SpoilsThenSpoils(e.key + "=", ShellQuote(e.value), lx, e.key + "=", e.value, MarkedKey(e), false);
    }
  }

  predicate SomeMarkedKey(es: seq<Entry>) {
    exists e :: e in es && MarkedKey(e)
  }

  lemma {:induction false} EntriesAreBounded(es: seq<Entry>, lx: Lexer)
    requires es != [] && WellFormed(lx) && forall e :: e in es ==> Count(SINGLE, e.key) == 0
    ensures Bounded(lx, Run(Join(PrintedAll(es, true)), lx), Join(PrintedAll(es, false)))
  {
    EntryIsBounded(es[0], lx);
    if |es| > 1 {
      OneMoreEntry(es, true);
      OneMoreEntry(es, false);
      var (first, meant) := (Printed(es[0], true), WordOf(es[0]));
      BlankIsBounded(Run(first, lx).0);
      BoundedThenBounded(first, " ", lx, meant, " ");
      EntriesAreBounded(es[1..], Run(first + " ", lx).0);
      BoundedThenBounded(
        first + " ", Join(PrintedAll(es[1..], true)), lx, meant + " ", Join(PrintedAll(es[1..], false)));
    }
  }

  lemma BlankIsBounded(lx: Lexer)
    requires WellFormed(lx)
    ensures Bounded(lx, Run(" ", lx), " ")
  {
    CountOneMore(SINGLE, "", ' ');
    RunKeeps(SINGLE, " ", lx);
    RunKeeps(BACKSLASH, " ", lx);
  }

  /** Reading the printed entries, whose keys have no single quotes, spoils something if some key has other marks. */
  lemma {:induction false} EntriesSpoil(es: seq<Entry>, lx: Lexer)
    requires es != [] && NoSingle(lx) && forall e :: e in es ==> Count(SINGLE, e.key) == 0
    ensures Spoils(lx, Run(Join(PrintedAll(es, true)), lx), Join(PrintedAll(es, false)), SomeMarkedKey(es))
  {
    EntryIsBounded(es[0], lx);
    EntrySpoils(es[0], lx);
    if |es| > 1 {
      OneMoreEntry(es, true);
      OneMoreEntry(es, false);
      var (first, meant, tail) := (Printed(es[0], true), WordOf(es[0]), Join(PrintedAll(es[1..], true)));
      var mid := Run(first, lx).0;
      BlankIsBounded(mid);
      if NoSingle(mid) {
        CharSpoils(mid, ' ');
      }
      BoundedThenBounded(first, " ", lx, meant, " ");
      SpoilsThenSpoils(first, " ", lx, meant, " ", MarkedKey(es[0]), false);
      var next := Run(first + " ", lx).0;
      EntriesAreBounded(es[1..], next);
      if NoSingle(next) {
        EntriesSpoil(es[1..], next);
      }
      SpoilsThenSpoils(first + " ", tail, lx, meant + " ", Join(PrintedAll(es[1..], false)),
        MarkedKey(es[0]), SomeMarkedKey(es[1..]));
      assert SomeMarkedKey(es) == (MarkedKey(es[0]) || SomeMarkedKey(es[1..]));
    }
  }

  /** No empty list is ever read. */
  lemma {:induction false} NoEmptyListIsRead(d: Options, tokens: seq<string>)
    requires forall k :: k in d ==> d[k] != Repeated([])
    ensures forall k :: k in AbsorbAll(d, tokens) ==> AbsorbAll(d, tokens)[k] != Repeated([])
    decreases |tokens|
  {
    if tokens != [] {
      NoEmptyListIsRead(Absorb(d, tokens[0]), tokens[1..]);
    }
  }

  lemma {:induction false} EntryOfKey(d: Options, order: seq<string>, k: string) returns (e: Entry)
    requires k in order && (forall k :: k in order ==> k in d) && d[k] != Repeated([])
    ensures e in EntriesOf(d, order) && e.key == k
    decreases |order|
  {
    var last := order[|order| - 1];
    if k == last {
      var es := EntriesFor(last, d[last]);
      assert es != [];
      e := es[|es| - 1];
    } else {
      e := EntryOfKey(d, order[..|order| - 1], k);
    }
  }

  lemma SurvivorHasEntry(d: Options, order: seq<string>, key: string) returns (e: Entry)
    requires Enumerates(order, d.Keys) && Parsed(Some(Line(d, order, true))) == Ok(d) && key in d
    ensures e in EntriesOf(d, order) && e.key == key
  {
    NoEmptyListIsRead(map[], Split(Line(d, order, true)).value);
    e := EntryOfKey(d, order, key);
  }

  /** What the line would have, printed without quotes. */
  lemma CountOfMeant(of: set<char>, d: Options, order: seq<string>)
    requires of <= MARKS && Enumerates(order, d.Keys)
    ensures Count(of, Join(PrintedAll(EntriesOf(d, order), false))) == CountIn(of, d, order)
  {
    CountOfJoin(of, PrintedAll(EntriesOf(d, order), false));
    CountOfEntries(of, d, order);
  }

  /** If the keys have no single quotes and the dict survives, they have no double quotes or backslashes either. */
  lemma UnmarkedIfSurviving(d: Options, order: seq<string>, key: string)
    requires Enumerates(order, d.Keys) && (forall k :: k in d ==> Count(SINGLE, k) == 0)
    requires Parsed(Some(Line(d, order, true))) == Ok(d) && key in d
    ensures Count(DOUBLE_OR_BACKSLASH, key) == 0
  {
    var e := SurvivorHasEntry(d, order, key);
    KeysOfEntries(d, order);
    var es, line := EntriesOf(d, order), Line(d, order, true);
    EntriesSpoil(es, START);
    forall of | of in {SINGLE, DOUBLE, BACKSLASH}
      ensures Kept(of, Run(line, START)) == Count(of, Join(PrintedAll(es, false)))
    {
      ReadExactly(of, d, order);
      SplitIsRun(of, line);
      CountOfMeant(of, d, order);
    }
    SplitIsRun(SINGLE, line);
    assert !SomeMarkedKey(es);
    assert !MarkedKey(e);
  }

  lemma {:induction false} CountOfMember(of: set<char>, words: seq<string>, w: string)
    requires w in words
    ensures Count(of, w) <= CountAll(of, words)
  {
    if w != words[0] {
      CountOfMember(of, words[1..], w);
    }
  }

  lemma KeyIsCounted(of: set<char>, es: seq<Entry>, e: Entry)
    requires of <= MARKS && e in es
    ensures Count(of, e.key) <= CountAll(of, PrintedAll(es, false))
  {
    var i :| 0 <= i < |es| && es[i] == e;
    assert PrintedAll(es, false)[i] == WordOf(e);
    CountOfMember(of, PrintedAll(es, false), WordOf(e));
    if e.Setting? {
      CountOfSetting(of, e.key, e.value);
    }
  }

  lemma CountOfLine(of: set<char>, d: Options, order: seq<string>)
    requires of <= DOUBLE_OR_BACKSLASH && Enumerates(order, d.Keys) && NoSingleInValues(d)
    ensures Count(of, Line(d, order, true)) == CountIn(of, d, order)
  {
    var es := EntriesOf(d, order);
    EntriesFrom(d, order);
    CountOfQuoted(of, es);
    CountOfJoin(of, PrintedAll(es, true));
    CountOfEntries(of, d, order);
  }

  /** If the values have no single quotes and the dict survives, the keys have none either. */
  lemma NoSingleIfSurviving(d: Options, order: seq<string>, key: string)
    requires Enumerates(order, d.Keys) && NoSingleInValues(d)
    requires Parsed(Some(Line(d, order, true))) == Ok(d) && key in d
    ensures Count(SINGLE, key) == 0
  {
    var e := SurvivorHasEntry(d, order, key);
    var line := Line(d, order, true);
    ReadExactly(DOUBLE_OR_BACKSLASH, d, order);
    SplitIsRun(DOUBLE_OR_BACKSLASH, line);
    CountOfLine(DOUBLE_OR_BACKSLASH, d, order);
    SinglesAreLost(line, START);
    ReadExactly(SINGLE, d, order);
    SplitIsRun(SINGLE, line);
    CountOfEntries(SINGLE, d, order);
    KeyIsCounted(SINGLE, EntriesOf(d, order), e);
  }

  ghost predicate NoSingleInValues(d: Options) {
    forall k, e :: k in d && e in EntriesFor(k, d[k]) && e.Setting? ==> Count(SINGLE, e.value) == 0
  }

  lemma {:induction false} EntriesFrom(d: Options, order: seq<string>)
    requires forall k :: k in order ==> k in d
    ensures forall e :: e in EntriesOf(d, order) ==> exists k :: k in order && e in EntriesFor(k, d[k])
    decreases |order|
  {
    if order != [] {
      EntriesFrom(d, order[..|order| - 1]);
    }
  }

  lemma {:induction false} CountMarks(s: string)
    ensures Count(MARKS, s) == Count(SINGLE, s) + Count(DOUBLE_OR_BACKSLASH, s)
  {
    if s != "" {
      CountMarks(s[1..]);
    }
  }

  /** There are not single quotes both in a key and in a value. */
  ghost predicate SingleQuotesApart(d: Options) {
    (forall k :: k in d ==> Count(SINGLE, k) == 0) || NoSingleInValues(d)
  }

  lemma SurvivorIsPlain(d: Options, order: seq<string>)
    requires Enumerates(order, d.Keys) && SingleQuotesApart(d) && Parsed(Some(Line(d, order, true))) == Ok(d)
    ensures forall k :: k in d ==> PlainKey(k)
  {
    forall k | k in d
      ensures Count(SINGLE, k) == 0
    {
      if NoSingleInValues(d) {
        NoSingleIfSurviving(d, order, k);
      }
    }
    forall k | k in d
      ensures Count(MARKS, k) == 0
    {
      UnmarkedIfSurviving(d, order, k);
      CountMarks(k);
    }
    KeysOfEntries(d, order);
    AllEntriesNamePlainly(EntriesOf(d, order));
    PlainNamesPlainKeys(map[], Split(Line(d, order, true)).value);
  }

  /**
   The round trip of whole dicts: they survive if every key is plain, and every list has two or more elements, all of
   them texts; and only then, unless there are single quotes both in a key and in a value.
   */
  lemma WholeRoundTrip(d: Options, order: seq<string>)
    requires Enumerates(order, d.Keys)
    ensures
      (forall k :: k in d ==> PlainKey(k) && Faithful(d[k])) ==> Parsed(Some(Line(d, order, true))) == Ok(d)
    ensures
      SingleQuotesApart(d) ==>
        (Parsed(Some(Line(d, order, true))) == Ok(d) <==> forall k :: k in d ==> PlainKey(k) && Faithful(d[k]))
  {
    if SingleQuotesApart(d) && Parsed(Some(Line(d, order, true))) == Ok(d) {
      SurvivorIsPlain(d, order);
    }
    if forall k :: k in d ==> PlainKey(k) {
      RoundTrip(d, order, true);
    }
  }

  /* Printing without quotes */

  predicate ClearValue(v: OptValue) {
    match v
    case NoValue => true
    case Text(t) => !HasSpecial(t)
    case Repeated(items) => forall i :: 0 <= i < |items| ==> !HasSpecial(ItemText(items[i]))
  }

  /** Words without special characters give values without special characters. */
  lemma {:induction false} ClearWordsClearValues(d: Options, tokens: seq<string>)
    requires forall w :: w in tokens ==> IsClear(w)
    requires forall k :: k in d ==> ClearValue(d[k])
    ensures forall k :: k in AbsorbAll(d, tokens) ==> ClearValue(AbsorbAll(d, tokens)[k])
    decreases |tokens|
  {
    if tokens != [] {
      var token := tokens[0];
      assert token in tokens;
      if '=' in token {
        ClearPart(token, IndexOfEquals(token) + 1, |token|);
        assert token[IndexOfEquals(token) + 1..|token|] == token[IndexOfEquals(token) + 1..];
      }
      ClearWordsClearValues(Absorb(d, token), tokens[1..]);
    }
  }

  lemma {:induction false} ClearSettings(key: string, items: seq<Option<string>>)
    requires forall i :: 0 <= i < |items| ==> !HasSpecial(ItemText(items[i]))
    ensures forall e :: e in Settings(key, items) && e.Setting? ==> !HasSpecial(e.value)
    decreases |items|
  {
    if items != [] {
      ClearSettings(key, items[..|items| - 1]);
    }
  }

  lemma ClearNeedsNoQuotes(d: Options)
    requires forall k :: k in d ==> ClearValue(d[k])
    ensures NeedsNoQuotes(d)
  {
    forall k, e | k in d && e in EntriesFor(k, d[k]) && e.Setting?
      ensures !HasSpecial(e.value)
    {
      if d[k].Repeated? {
        ClearSettings(k, d[k].items);
      }
    }
  }

  lemma ClearWords(line: string) returns (words: seq<string>)
    requires Count(MARKS, line) == 0 && Split(line).Ok?
    ensures Split(line) == Ok(words) && forall w :: w in words ==> IsClear(w)
  {
    var last;
    words, last := LexUnquoted(line, "", START);
    assert line + "" == line;
    words := Split(line).value;
  }

  /**
   Without quoting, as kernel options are printed, a dict survives exactly when every key of it is plain, no value has a
   character that the shell reads specially, and its lists have two or more elements, all of them texts. Keys and values
   can never make up for what is lost of one another.
   */
  lemma UnquotedRoundTrip(d: Options, order: seq<string>)
    requires Enumerates(order, d.Keys)
    ensures
      Parsed(Some(Line(d, order, false))) == Ok(d) <==>
      && (forall k :: k in d ==> PlainKey(k)) && NeedsNoQuotes(d) && (forall k :: k in d ==> Faithful(d[k]))
  {
    var line := Line(d, order, false);
    if Parsed(Some(line)) == Ok(d) {
      CountOfJoin(MARKS, PrintedAll(EntriesOf(d, order), false));
      CountOfEntries(MARKS, d, order);
      CountOfAbsorbAll(MARKS, map[], Split(line).value, order);
      CountInEmpty(MARKS, order);
      LexLosesMarks(line, START);
      var words := ClearWords(line);
      forall w | w in words
        ensures NamesPlainly(w)
      {
        ClearWordNamesPlainly(w);
      }
      PlainNamesPlainKeys(map[], words);
      ClearWordsClearValues(map[], words);
      ClearNeedsNoQuotes(d);
    }
    if (forall k :: k in d ==> PlainKey(k)) && NeedsNoQuotes(d) {
      RoundTrip(d, order, false);
    }
  }

  /* Instances */

  lemma LineOfOne(key: string, v: OptValue, quote: bool)
    ensures
      var d: Options := map[key := v];
      Enumerates([key], d.Keys) && Line(d, [key], quote) == Join(PrintedAll(EntriesFor(key, v), quote))
  {
    var d: Options := map[key := v];
    assert [key][..0] == [] && EntriesOf(d, []) == [];
    assert EntriesOf(d, [key]) == [] + EntriesFor(key, v);
    assert [] + EntriesFor(key, v) == EntriesFor(key, v);
  }

  /** A None in a list comes back as the word None. */
  lemma NoneComesBackAsText(t: string)
    ensures
      var d: Options := map["k" := Repeated([None, Some(t)])];
      Parsed(Some(Line(d, ["k"], true))) == Ok(map["k" := Repeated([Some("None"), Some(t)])])
  {
    var d: Options := map["k" := Repeated([None, Some(t)])];
    LineOfOne("k", Repeated([None, Some(t)]), true);
    PrintThenParse(d, ["k"], true);
    assert Texts([None, Some(t)]) == [Some("None"), Some(t)];
    assert RereadAll(d) == map["k" := Repeated([Some("None"), Some(t)])];
  }

  /** A list of one text comes back as the text; printed without quotes, a text with a blank does not come back. */
  lemma LostOptions(t: string)
    ensures
      var single: Options := map["k" := Repeated([Some(t)])];
      var spaced: Options := map["k" := Text("a b")];
      && Parsed(Some(Line(single, ["k"], true))) == Ok(map["k" := Text(t)])
      && Parsed(Some(Line(spaced, ["k"], false))) != Ok(spaced)
  {
    var single: Options := map["k" := Repeated([Some(t)])];
    LineOfOne("k", Repeated([Some(t)]), true);
    PrintThenParse(single, ["k"], true);
    assert RereadAll(single) == map["k" := Text(t)];
    var spaced: Options := map["k" := Text("a b")];
    LineOfOne("k", Text("a b"), false);
    UnquotedRoundTrip(spaced, ["k"]);
    assert Setting("k", "a b") in EntriesFor("k", spaced["k"]) && "a b"[1] == ' ';
  }
}
