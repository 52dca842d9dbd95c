/**
 Install options: the `key`, `key=value` and repeated `key=value` notation for kickstart metadata and kernel options,
 as a dict that is parsed from, and printed to, one line of shell words.
 */
module InstallOptions {
  import opened Prelude
  import opened Shlex

  /** A dict value: None, a text, or a list whose elements are None or a text. */
  datatype OptValue = NoValue | Text(text: string) | Repeated(items: seq<Option<string>>)

  type Options = map<string, OptValue>

  /* Parsing */

  function IndexOfEquals(token: string): (i: nat)
    requires '=' in token
    ensures i < |token| && token[i] == '='
    ensures forall j :: 0 <= j < i ==> token[j] != '='
  {
    if token[0] == '=' then 0 else 1 + IndexOfEquals(token[1..])
  }

  /** The value of a key that was mentioned before with `was`, or not at all, and now with one more `value`. */
  function Grown(was: Option<OptValue>, value: string): OptValue {
    match was
    case None => Text(value)
    case Some(Repeated(items)) => Repeated(items + [Some(value)])
    case Some(Text(t)) => Repeated([Some(t), Some(value)])
    case Some(NoValue) => Repeated([None, Some(value)])
  }

  function Find<V>(d: map<string, V>, key: string): Option<V> {
    if key in d then Some(d[key]) else None
  }

  /** What one more word does to the dict read so far. */
  function Absorb(d: Options, token: string): Options {
    if '=' !in token then
      if token in d then d else d[token := NoValue]
    else
      var i := IndexOfEquals(token);
      var (name, value) := (token[..i], token[i + 1..]);
      if name == "" then d else d[name := Grown(Find(d, name), value)]
  }

  function AbsorbAll(d: Options, tokens: seq<string>): Options
    decreases |tokens|
  {
    if tokens == [] then d else AbsorbAll(Absorb(d, tokens[0]), tokens[1..])
  }

  function Parsed(line: Option<string>): Result<Options, LexError> {
    match Split(if line.Some? then line.value else "")
    case Err(e) => Err(e)
    case Ok(tokens) => Ok(AbsorbAll(map[], tokens))
  }

  method Parse(line: Option<string>) returns (r: Result<Options, LexError>)
    ensures r == Parsed(line)
  {
    var split := Split(if line.Some? then line.value else "");
    if split.Err? {
      return Err(split.error);
    }
    var result: Options := map[];
    for i := 0 to |split.value|
      invariant AbsorbAll(map[], split.value) == AbsorbAll(result, split.value[i..])
    {
      var token := split.value[i];
      if '=' !in token {
        if token !in result {
          result := result[token := NoValue];
        }
        continue;
      }
      var at := IndexOfEquals(token);
      var name, value := token[..at], token[at + 1..];
      if name == "" {
        continue;
      }
      if name in result {
        if result[name].Repeated? {
          result := result[name := Repeated(result[name].items + [Some(value)])];
        } else {
          var first := if result[name].NoValue? then None else Some(result[name].text);
          result := result[name := Repeated([first, Some(value)])];
        }
      } else {
        result := result[name := Text(value)];
      }
    }
    r := Ok(result);
  }

  /* Printing */

  /** One printed word: a bare key, or a key with one value. */
  datatype Entry = Bare(key: string) | Setting(key: string, value: string)

  /** The text form of a list element: a missing one prints as the word None. */
  function ItemText(item: Option<string>): string {
    if item.None? then "None" else item.value
  }

  function Settings(key: string, items: seq<Option<string>>): (es: seq<Entry>)
    ensures |es| == |items| && forall e :: e in es ==> e.key == key
    decreases |items|
  {
    if items == [] then []
    else Settings(key, items[..|items| - 1]) + [Setting(key, ItemText(items[|items| - 1]))]
  }

  function EntriesFor(key: string, v: OptValue): seq<Entry> {
    match v
    case NoValue => [Bare(key)]
    case Text(t) => [Setting(key, t)]
    case Repeated(items) => Settings(key, items)
  }

  function EntriesOf(d: Options, order: seq<string>): seq<Entry>
    requires forall k :: k in order ==> k in d
    decreases |order|
  {
    if order == [] then []
    else
      var last := order[|order| - 1];
      EntriesOf(d, order[..|order| - 1]) + EntriesFor(last, d[last])
  }

  function Printed(e: Entry, quote: bool): string {
    match e
    case Bare(key) => key
    case Setting(key, value) => key + "=" + (if quote then ShellQuote(value) else value)
  }

  function PrintedAll(es: seq<Entry>, quote: bool): seq<string> {
    seq(|es|, i requires 0 <= i < |es| => Printed(es[i], quote))
  }

  function Join(items: seq<string>): string {
    if items == [] then ""
    else if |items| == 1 then items[0]
    else items[0] + " " + Join(items[1..])
  }

  function Line(d: Options, order: seq<string>, quote: bool): string
    requires forall k :: k in order ==> k in d
  {
    Join(PrintedAll(EntriesOf(d, order), quote))
  }

  lemma PrintedAllAppend(a: seq<Entry>, b: seq<Entry>, quote: bool)
    ensures PrintedAll(a + b, quote) == PrintedAll(a, quote) + PrintedAll(b, quote)
  {
  }

  lemma OneMoreSetting(key: string, items: seq<Option<string>>, item: Option<string>, quote: bool)
    ensures
      PrintedAll(Settings(key, items + [item]), quote) ==
      PrintedAll(Settings(key, items), quote) + [Printed(Setting(key, ItemText(item)), quote)]
  {
    assert (items + [item])[..|items|] == items;
    PrintedAllAppend(Settings(key, items), [Setting(key, ItemText(item))], quote);
  }

  method PrintValue(key: string, value: OptValue, quote: bool) returns (items: seq<string>)
    ensures items == PrintedAll(EntriesFor(key, value), quote)
  {
    match value
    case NoValue =>
      items := [key];
    case Text(t) =>
      items := [key + "=" + (if quote then ShellQuote(t) else t)];
    case Repeated(vs) =>
      items := [];
      for j := 0 to |vs|
        invariant items == PrintedAll(Settings(key, vs[..j]), quote)
      {
        var v := ItemText(vs[j]);
        OneMoreSetting(key, vs[..j], vs[j], quote);
        assert vs[..j + 1] == vs[..j] + [vs[j]];
        items := items + [key + "=" + (if quote then ShellQuote(v) else v)];
      }
      assert vs[..|vs|] == vs;
  }

  lemma OneMoreKey(d: Options, order: seq<string>, key: string, quote: bool)
    requires key in d && forall k :: k in order ==> k in d
    ensures
      PrintedAll(EntriesOf(d, order + [key]), quote) ==
      PrintedAll(EntriesOf(d, order), quote) + PrintedAll(EntriesFor(key, d[key]), quote)
  {
    assert (order + [key])[..|order|] == order;
    PrintedAllAppend(EntriesOf(d, order), EntriesFor(key, d[key]), quote);
  }

  /**
   Prints the dict. The keys are visited in the given order; the program visits them sorted, and nothing proved here
   depends on which order it is.
   */
  method Unparse(d: Options, order: seq<string>, quote: bool) returns (line: string)
    requires Enumerates(order, d.Keys)
    ensures line == Line(d, order, quote)
  {
    var items: seq<string> := [];
    for i := 0 to |order|
      invariant items == PrintedAll(EntriesOf(d, order[..i]), quote)
    {
      var block := PrintValue(order[i], d[order[i]], quote);
      OneMoreKey(d, order[..i], order[i], quote);
      assert order[..i + 1] == order[..i] + [order[i]];
      items := items + block;
    }
    assert order[..|order|] == order;
    line := Join(items);
  }

  /* Reading back what was printed */

  /** A key that survives as the first part of one shell word. */
  predicate PlainKey(key: string) {
    key != "" && '=' !in key && !HasSpecial(key)
  }

  /** The word that the shell reads back from a printed entry. */
  function WordOf(e: Entry): string {
    match e
    case Bare(key) => key
    case Setting(key, value) => key + "=" + value
  }

  function WordsOf(es: seq<Entry>): seq<string> {
    if es == [] then [] else [WordOf(es[0])] + WordsOf(es[1..])
  }

  ghost predicate Legible(e: Entry, quote: bool) {
    PlainKey(e.key) && (e.Setting? && !quote ==> !HasSpecial(e.value))
  }

  lemma LexKey(key: string, rest: string)
    requires PlainKey(key)
    ensures Lex(key + rest, START) == Lex(rest, Lexer(Word, key, false))
  {
    assert !IsSpecial(key[0]) && !HasSpecial(key[1..]) by {
      assert forall i :: 0 <= i < |key[1..]| ==> key[1..][i] == key[i + 1];
    }
    assert key + rest == [key[0]] + (key[1..] + rest);
    LexCons(key[0], key[1..] + rest, START);
    LexPlain(key[1..], rest, Lexer(Word, [key[0]], false));
    assert [key[0]] + key[1..] == key;
  }

  lemma LexPrinted(e: Entry, quote: bool, rest: string) returns (quoted: bool)
    requires Legible(e, quote)
    ensures WordOf(e) != ""
    ensures Lex(Printed(e, quote) + rest, START) == Lex(rest, Lexer(Word, WordOf(e), quoted))
  {
    quoted := false;
    if e.Bare? {
      LexKey(e.key, rest);
    } else {
      var shown := if quote then ShellQuote(e.value) else e.value;
      var prefix := e.key + "=";
      assert Printed(e, quote) + rest == e.key + (['='] + (shown + rest));
      LexKey(e.key, ['='] + (shown + rest));
      LexCons('=', shown + rest, Lexer(Word, e.key, false));
      if quote {
        LexShellQuote(e.value, rest, prefix, false);
        quoted :| Lex(shown + rest, Lexer(Word, prefix, false)) == Lex(rest, Lexer(Word, prefix + e.value, quoted));
      } else {
        LexPlain(e.value, rest, Lexer(Word, prefix, false));
      }
    }
  }

  lemma WordsOfOne(e: Entry)
    ensures WordsOf([e]) == [WordOf(e)]
  {
    assert [e][1..] == [];
  }

  lemma SplitLast(e: Entry, quote: bool)
    requires Legible(e, quote)
    ensures Split(Printed(e, quote)) == Ok([WordOf(e)])
  {
    var quoted := LexPrinted(e, quote, "");
    assert Printed(e, quote) + "" == Printed(e, quote);
  }

  lemma SplitFirst(e: Entry, quote: bool, rest: string)
    requires Legible(e, quote) && Split(rest).Ok?
    ensures Split(Printed(e, quote) + (" " + rest)) == Ok([WordOf(e)] + Split(rest).value)
  {
    var quoted := LexPrinted(e, quote, " " + rest);
    assert (" " + rest)[1..] == rest;
  }

  lemma {:induction false} SplitPrinted(es: seq<Entry>, quote: bool)
    requires forall e :: e in es ==> Legible(e, quote)
    ensures Split(Join(PrintedAll(es, quote))) == Ok(WordsOf(es))
  {
    if |es| == 1 {
      SplitLast(es[0], quote);
      assert es == [es[0]];
      WordsOfOne(es[0]);
    } else if |es| > 1 {
      SplitPrinted(es[1..], quote);
      var items := PrintedAll(es, quote);
      assert items[1..] == PrintedAll(es[1..], quote);
      SplitFirst(es[0], quote, Join(items[1..]));
      assert Join(items) == items[0] + (" " + Join(items[1..]));
    }
  }

  lemma {:induction false} AbsorbAllAppend(d: Options, a: seq<string>, b: seq<string>)
    ensures AbsorbAll(d, a + b) == AbsorbAll(AbsorbAll(d, a), b)
    decreases |a|
  {
    if a == [] {
      assert a + b == b;
    } else {
      assert (a + b)[1..] == a[1..] + b;
      AbsorbAllAppend(Absorb(d, a[0]), a[1..], b);
    }
  }

  lemma {:induction false} WordsOfAppend(a: seq<Entry>, b: seq<Entry>)
    ensures WordsOf(a + b) == WordsOf(a) + WordsOf(b)
  {
    if a == [] {
      assert a + b == b;
    } else {
      assert (a + b)[1..] == a[1..] + b;
      WordsOfAppend(a[1..], b);
    }
  }

  lemma AbsorbSetting(d: Options, key: string, value: string)
    requires PlainKey(key)
    ensures Absorb(d, WordOf(Setting(key, value))) == d[key := Grown(Find(d, key), value)]
  {
    var word := WordOf(Setting(key, value));
    assert word[|key|] == '=';
    var i := IndexOfEquals(word);
    assert forall j :: 0 <= j < |key| ==> word[j] == key[j];
    assert word[..i] == key && word[i + 1..] == value;
  }

  /** The value that a printed value reads back as; None when nothing at all is printed for it. */
  function Reread(v: OptValue): Option<OptValue> {
    match v
    case Repeated(items) =>
      if |items| == 0 then None
      else if |items| == 1 then Some(Text(ItemText(items[0])))
      else Some(Repeated(Texts(items)))
    case _ => Some(v)
  }

  function Texts(items: seq<Option<string>>): seq<Option<string>> {
    seq(|items|, i requires 0 <= i < |items| => Some(ItemText(items[i])))
  }

  function RereadAll(d: Options): Options {
    map k | k in d && Reread(d[k]).Some? :: Reread(d[k]).value
  }

  /** Reading one more element of a printed list. */
  lemma RereadGrows(items: seq<Option<string>>, item: Option<string>)
    ensures Reread(Repeated(items + [item])) == Some(Grown(Reread(Repeated(items)), ItemText(item)))
  {
    var now := items + [item];
    if |items| == 1 {
      assert Texts(now) == [Some(ItemText(items[0])), Some(ItemText(item))];
    } else if |items| > 1 {
      assert Texts(now) == Texts(items) + [Some(ItemText(item))];
    }
  }

  lemma AbsorbOne(d: Options, word: string)
    ensures AbsorbAll(d, [word]) == Absorb(d, word)
  {
    assert [word][1..] == [];
  }

  lemma AbsorbOneMore(d: Options, es: seq<Entry>, key: string, value: string)
    requires PlainKey(key)
    ensures
      var before := AbsorbAll(d, WordsOf(es));
      AbsorbAll(d, WordsOf(es + [Setting(key, value)])) == before[key := Grown(Find(before, key), value)]
  {
    var e := Setting(key, value);
    var before := AbsorbAll(d, WordsOf(es));
    WordsOfAppend(es, [e]);
    WordsOfOne(e);
    AbsorbAllAppend(d, WordsOf(es), [WordOf(e)]);
    AbsorbOne(before, WordOf(e));
    AbsorbSetting(before, key, value);
  }

  function GrownAll(items: seq<Option<string>>): Option<OptValue>
    decreases |items|
  {
    if items == [] then None
    else Some(Grown(GrownAll(items[..|items| - 1]), ItemText(items[|items| - 1])))
  }

  lemma {:induction false} GrownAllIsReread(items: seq<Option<string>>)
    ensures GrownAll(items) == Reread(Repeated(items))
    decreases |items|
  {
    if items != [] {
      var init, last := items[..|items| - 1], items[|items| - 1];
      GrownAllIsReread(init);
      RereadGrows(init, last);
      assert init + [last] == items;
    }
  }

  /** `d` with `key` set to the value, if there is one. */
  function WithValue(d: Options, key: string, v: Option<OptValue>): Options {
    if v.None? then d else d[key := v.value]
  }

  lemma {:induction false} AbsorbSettings(d: Options, key: string, items: seq<Option<string>>)
    requires PlainKey(key) && key !in d
    ensures AbsorbAll(d, WordsOf(Settings(key, items))) == WithValue(d, key, GrownAll(items))
    decreases |items|
  {
    if items != [] {
      var init, last := items[..|items| - 1], items[|items| - 1];
      AbsorbSettings(d, key, init);
      AbsorbOneMore(d, Settings(key, init), key, ItemText(last));
    }
  }

  lemma AbsorbValue(d: Options, key: string, v: OptValue)
    requires PlainKey(key) && key !in d
    ensures AbsorbAll(d, WordsOf(EntriesFor(key, v))) == WithValue(d, key, Reread(v))
  {
    match v
    case Repeated(items) =>
      AbsorbSettings(d, key, items);
      GrownAllIsReread(items);
    case NoValue =>
      WordsOfOne(Bare(key));
      AbsorbOne(d, key);
    case Text(t) =>
      WordsOfOne(Setting(key, t));
      AbsorbOne(d, WordOf(Setting(key, t)));
      AbsorbSetting(d, key, t);
  }

  lemma {:induction false} AbsorbEntries(d: Options, order: seq<string>, k: string)
    requires forall k :: k in order ==> k in d && PlainKey(k)
    requires forall i, j :: 0 <= i < j < |order| ==> order[i] != order[j]
    ensures Find(AbsorbAll(map[], WordsOf(EntriesOf(d, order))), k) == if k in order then Reread(d[k]) else None
    decreases |order|
  {
    if order != [] {
      var init, last := order[..|order| - 1], order[|order| - 1];
      var before := AbsorbAll(map[], WordsOf(EntriesOf(d, init)));
      WordsOfAppend(EntriesOf(d, init), EntriesFor(last, d[last]));
      AbsorbAllAppend(map[], WordsOf(EntriesOf(d, init)), WordsOf(EntriesFor(last, d[last])));
      AbsorbEntries(d, init, k);
      AbsorbEntries(d, init, last);
      assert last !in init;
      AbsorbValue(before, last, d[last]);
      assert order == init + [last];
    }
  }

  lemma {:induction false} EntriesLegible(d: Options, order: seq<string>, quote: bool)
    requires forall k :: k in order ==> k in d && PlainKey(k)
    requires !quote ==> forall k, e :: k in order && e in EntriesFor(k, d[k]) && e.Setting? ==> !HasSpecial(e.value)
    ensures forall e :: e in EntriesOf(d, order) ==> Legible(e, quote)
  {
    if order != [] {
      EntriesLegible(d, order[..|order| - 1], quote);
      assert order[|order| - 1] in order;
    }
  }

  /** No value would need quoting. */
  ghost predicate NeedsNoQuotes(d: Options) {
    forall k, e :: k in d && e in EntriesFor(k, d[k]) && e.Setting? ==> !HasSpecial(e.value)
  }

  lemma SameOptions(a: Options, b: Options)
    requires forall k :: Find(a, k) == Find(b, k)
    ensures a == b
  {
    forall k
      ensures k in a <==> k in b
      ensures k in a && k in b ==> a[k] == b[k]
    {
      assert Find(a, k) == Find(b, k);
    }
  }

  /**
   What any dict with plain keys reads back as once printed: the same keys in whatever order they were printed, with
   each value as `Reread` says. The unquoted printer does as well when no value needs quoting.
   */
  lemma PrintThenParse(d: Options, order: seq<string>, quote: bool)
    requires Enumerates(order, d.Keys)
    requires forall k :: k in d ==> PlainKey(k)
    requires quote || NeedsNoQuotes(d)
    ensures Parsed(Some(Line(d, order, quote))) == Ok(RereadAll(d))
  {
    EntriesLegible(d, order, quote);
    SplitPrinted(EntriesOf(d, order), quote);
    var reread := AbsorbAll(map[], WordsOf(EntriesOf(d, order)));
    forall k
      ensures Find(reread, k) == Find(RereadAll(d), k)
    {
      AbsorbEntries(d, order, k);
    }
    SameOptions(reread, RereadAll(d));
  }

  /** A list is printed faithfully when it has two or more elements, all of them texts. */
  predicate Faithful(v: OptValue) {
    v.Repeated? ==> |v.items| >= 2 && forall i :: 0 <= i < |v.items| ==> v.items[i].Some?
  }

  /** The round trip holds exactly for dicts whose lists have at least two elements and no None among them. */
  lemma RoundTrip(d: Options, order: seq<string>, quote: bool)
    requires Enumerates(order, d.Keys)
    requires forall k :: k in d ==> PlainKey(k)
    requires quote || NeedsNoQuotes(d)
    ensures Parsed(Some(Line(d, order, quote))) == Ok(d) <==> forall k :: k in d ==> Faithful(d[k])
  {
    PrintThenParse(d, order, quote);
    forall k | k in d
      ensures Reread(d[k]) == Some(d[k]) <==> Faithful(d[k])
    {
      if d[k].Repeated? && |d[k].items| >= 2 {
        var items := d[k].items;
        if Faithful(d[k]) {
          assert Texts(items) == items;
        } else {
          var i :| 0 <= i < |items| && items[i].None?;
          assert Texts(items)[i] != items[i];
        }
      }
    }
    if RereadAll(d) == d {
      forall k | k in d
        ensures Faithful(d[k])
      {
        assert k in RereadAll(d) && RereadAll(d)[k] == d[k];
      }
    }
  }

  lemma {:induction false} BareKeysAreWords(d: Options, tokens: seq<string>, key: string)
    requires key !in d && key in AbsorbAll(d, tokens) && AbsorbAll(d, tokens)[key] == NoValue
    ensures key in tokens && '=' !in key
    decreases |tokens|
  {
    if tokens != [] {
      var next := Absorb(d, tokens[0]);
      if key !in next {
        BareKeysAreWords(next, tokens[1..], key);
      } else if next[key] != NoValue {
        SettledValue(next, tokens[1..], key);
      }
    }
  }

  lemma {:induction false} SettledValue(d: Options, tokens: seq<string>, key: string)
    requires key in d && d[key] != NoValue
    ensures key in AbsorbAll(d, tokens) && AbsorbAll(d, tokens)[key] != NoValue
    decreases |tokens|
  {
    if tokens != [] {
      SettledValue(Absorb(d, tokens[0]), tokens[1..], key);
    }
  }

  /** Plain keys are exactly the bare keys that survive: any other is split, unquoted, read as a setting, or lost. */
  lemma BareKeyRoundTrip(key: string)
    ensures Parsed(Some(Line(map[key := NoValue], [key], true))) == Ok(map[key := NoValue]) <==> PlainKey(key)
  {
    var d: Options := map[key := NoValue];
    assert Line(d, [key], true) == key by {
      assert EntriesOf(d, [key][1..]) == [];
      assert EntriesOf(d, [key]) == [Bare(key)];
      assert PrintedAll([Bare(key)], true) == [key];
    }
    if PlainKey(key) {
      RoundTrip(d, [key], true);
    } else if Parsed(Some(key)) == Ok(d) {
      BareKeysAreWords(map[], Split(key).value, key);
      LexLosesSpecials(key, START);
      MemberNoLonger(Split(key).value, key);
      assert false;
    }
  }
}
