/** What a line of install options means, key by key, in terms of the words in it. */
module InstallWords {
  import opened Prelude
  import opened Shlex
  import opened ShellWords
  import opened InstallOptions

  /** The word is the key with a value. */
  predicate Sets(word: string, key: string) {
    '=' !in key && |word| > |key| && word[..|key|] == key && word[|key|] == '='
  }

  /** The values given to the key, in the order of the words; the empty key is given none. */
  function ValuesOf(words: seq<string>, key: string): seq<string>
    decreases |words|
  {
    if words == [] then []
    else
      var last := words[|words| - 1];
      ValuesOf(words[..|words| - 1], key) + if key != "" && Sets(last, key) then [last[|key| + 1..]] else []
  }

  predicate IsMentioned(words: seq<string>, key: string) {
    '=' !in key && key in words
  }

  /** The key is mentioned without a value before it is given any. */
  ghost predicate BareFirst(words: seq<string>, key: string) {
    exists i :: 0 <= i < |words| && OnlyMentioned(words[..i], key)
  }

  predicate OnlyMentioned(words: seq<string>, key: string) {
    IsMentioned(words, key) && ValuesOf(words, key) == []
  }

  function Texted(vs: seq<string>): seq<Option<string>> {
    seq(|vs|, i requires 0 <= i < |vs| => Some(vs[i]))
  }

  /**
   The value of a key: none if it is only mentioned; a text if it is given once; otherwise a list of all that it is
   given, with a None before them if it was mentioned first.
   */
  ghost predicate HasValue(words: seq<string>, key: string, v: Option<OptValue>) {
    var vs := ValuesOf(words, key);
    if vs == [] then v == if IsMentioned(words, key) then Some(NoValue) else None
    else if BareFirst(words, key) then v == Some(Repeated([None] + Texted(vs)))
    else if |vs| == 1 then v == Some(Text(vs[0]))
    else v == Some(Repeated(Texted(vs)))
  }

  lemma SetsIff(word: string, key: string)
    ensures Sets(word, key) <==> '=' in word && word[..IndexOfEquals(word)] == key
    ensures Sets(word, key) ==> IndexOfEquals(word) == |key|
  {
    if '=' in word {
      var i := IndexOfEquals(word);
      assert '=' !in word[..i];
      if Sets(word, key) {
        assert forall j :: 0 <= j < |key| ==> word[j] == word[..|key|][j] && word[..|key|][j] != '=';
      }
    }
  }

  lemma OneMoreWord(words: seq<string>, word: string, key: string)
    ensures
      ValuesOf(words + [word], key) ==
      ValuesOf(words, key) + if key != "" && Sets(word, key) then [word[|key| + 1..]] else []
    ensures IsMentioned(words + [word], key) <==> IsMentioned(words, key) || (word == key && '=' !in key)
    ensures BareFirst(words + [word], key) <==> BareFirst(words, key) || OnlyMentioned(words, key)
  {
    var more := words + [word];
    assert more[..|words|] == words && more[|words|] == word;
    BareFirstOneMore(words, word, key);
  }

  lemma BareFirstOneMore(words: seq<string>, word: string, key: string)
    ensures BareFirst(words + [word], key) <==> BareFirst(words, key) || OnlyMentioned(words, key)
  {
    var more := words + [word];
    assert forall i :: 0 <= i <= |words| ==> more[..i] == words[..i];
    assert more[..|words|] == words;
  }

  /** The value of the key after one more word. */
  lemma AbsorbFinds(d: Options, word: string, key: string)
    ensures
      Find(Absorb(d, word), key) ==
      if key != "" && Sets(word, key) then Some(Grown(Find(d, key), word[|key| + 1..]))
      else if word == key && '=' !in key && key !in d then Some(NoValue)
      else Find(d, key)
  {
    SetsIff(word, key);
  }

  lemma TextedOneMore(vs: seq<string>, v: string)
    ensures Texted(vs + [v]) == Texted(vs) + [Some(v)]
  {
  }

  lemma MentionedFirst(words: seq<string>, key: string)
    requires BareFirst(words, key)
    ensures IsMentioned(words, key)
  {
    var i :| 0 <= i < |words| && OnlyMentioned(words[..i], key);
    assert key in words[..i];
  }

  lemma HasFirst(words: seq<string>, word: string, key: string, was: Option<OptValue>)
    requires HasValue(words, key, was) && key != "" && Sets(word, key) && ValuesOf(words, key) == []
    ensures HasValue(words + [word], key, Some(Grown(was, word[|key| + 1..])))
  {
    var v := word[|key| + 1..];
    OneMoreWord(words, word, key);
    assert ValuesOf(words + [word], key) == [v] && Texted([v]) == [Some(v)];
    if BareFirst(words, key) {
      MentionedFirst(words, key);
    }
    assert [None] + [Some(v)] == [None, Some(v)];
  }

  lemma HasGrown(words: seq<string>, word: string, key: string, was: Option<OptValue>)
    requires HasValue(words, key, was) && key != "" && Sets(word, key) && ValuesOf(words, key) != []
    ensures HasValue(words + [word], key, Some(Grown(was, word[|key| + 1..])))
  {
    var (vs, v) := (ValuesOf(words, key), word[|key| + 1..]);
    OneMoreWord(words, word, key);
    TextedOneMore(vs, v);
    assert ValuesOf(words + [word], key) == vs + [v] && |vs + [v]| > 1;
    if BareFirst(words, key) {
      assert [None] + Texted(vs) + [Some(v)] == [None] + Texted(vs + [v]);
    } else if |vs| == 1 {
      assert Texted(vs + [v]) == [Some(vs[0]), Some(v)];
    }
  }

  lemma HasKept(words: seq<string>, word: string, key: string, was: Option<OptValue>)
    requires HasValue(words, key, was) && (key == "" || !Sets(word, key))
    ensures
      HasValue(words + [word], key, if word == key && '=' !in key && was.None? then Some(NoValue) else was)
  {
    OneMoreWord(words, word, key);
    assert ValuesOf(words + [word], key) == ValuesOf(words, key);
  }

  /** Each key has the value that the words give it. */
  lemma {:induction false} AbsorbedMeans(words: seq<string>, key: string)
    ensures HasValue(words, key, Find(AbsorbAll(map[], words), key))
    decreases |words|
  {
    if words != [] {
      var (init, last) := (words[..|words| - 1], words[|words| - 1]);
      assert words == init + [last];
      var before := AbsorbAll(map[], init);
      AbsorbedMeans(init, key);
      AbsorbAllAppend(map[], init, [last]);
      AbsorbOne(before, last);
      AbsorbFinds(before, last, key);
      OneMoreWord(init, last, key);
      if key == "" || !Sets(last, key) {
        HasKept(init, last, key, Find(before, key));
      } else if ValuesOf(init, key) == [] {
        HasFirst(init, last, key, Find(before, key));
      } else {
        HasGrown(init, last, key, Find(before, key));
      }
    }
  }

  /** A line that spells words is parsed into the dict that the words mean, key by key; no other line is parsed. */
  lemma LineMeans(line: Option<string>, key: string)
    ensures
      var text := if line.Some? then line.value else "";
      && (Parsed(line).Ok? <==> exists words, blanks :: IsSpelling(text, words, blanks, None))
      && (forall words, blanks :: IsSpelling(text, words, blanks, None) ==>
        Parsed(line).Ok? && HasValue(LineMeant(words), key, Find(Parsed(line).value, key)))
  {
    var text := if line.Some? then line.value else "";
    var ws, bs, u := ReadLine(text);
    SpellingSplits(text, ws, bs, u);
    forall words, blanks | IsSpelling(text, words, blanks, None)
      ensures Parsed(line).Ok? && HasValue(LineMeant(words), key, Find(Parsed(line).value, key))
    {
      SpellingSplits(text, words, blanks, None);
      AbsorbedMeans(LineMeant(words), key);
    }
  }
}
