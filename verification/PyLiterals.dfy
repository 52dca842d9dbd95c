/**
 The plain way to write configuration values: decimal numerals, quoted texts, constants, names, and containers of these.
 It is defined apart from the parser, which reads what is written back as the value meant.
 */
module PyLiterals {
  import opened Prelude
  import opened PyValues
  import opened PyConfig
  import opened PySyntax
  import opened PyPrograms

  /* Numerals */

  function Digit(d: nat): char
    requires d < 10
  {
    "0123456789"[d]
  }

  /** The decimal numeral, most significant digit first. */
  function Decimal(n: nat): string {
    if n < 10 then [Digit(n)] else Decimal(n / 10) + [Digit(n % 10)]
  }

  predicate AllZeros(s: string) {
    forall i :: 0 <= i < |s| ==> s[i] == '0'
  }

  /** The numeral of a number, possibly with leading zeros. */
  ghost predicate IsNumeral(digits: string, n: nat) {
    exists zeros :: AllZeros(zeros) && digits == zeros + Decimal(n)
  }

  lemma DigitsOfOneMore(s: string, c: char)
    requires (forall i :: 0 <= i < |s| ==> '0' <= s[i] <= '9') && '0' <= c <= '9'
    ensures DigitsValue(s + [c]) == 10 * DigitsValue(s) + (c as int - '0' as int)
  {
    assert (s + [c])[..|s|] == s;
  }

  lemma DigitOf(d: nat)
    requires d < 10
    ensures '0' <= Digit(d) <= '9' && Digit(d) as int - '0' as int == d
  {
  }

  lemma {:induction false} ZerosAreNothing(zeros: string)
    requires AllZeros(zeros)
    ensures DigitsValue(zeros) == 0
  {
    if zeros != "" {
      ZerosAreNothing(zeros[..|zeros| - 1]);
    }
  }

  lemma {:induction false} DecimalIsRead(zeros: string, n: nat)
    requires AllZeros(zeros)
    ensures IsDigits(zeros + Decimal(n)) && DigitsValue(zeros + Decimal(n)) == n
  {
    DigitOf(n % 10);
    if n < 10 {
      ZerosAreNothing(zeros);
      DigitsOfOneMore(zeros, Digit(n));
    } else {
      DecimalIsRead(zeros, n / 10);
      DigitsOfOneMore(zeros + Decimal(n / 10), Digit(n % 10));
      assert zeros + Decimal(n) == zeros + Decimal(n / 10) + [Digit(n % 10)];
    }
  }

  /** Every text of digits is the numeral of its value, and of no other number. */
  lemma {:induction false} DigitsAreNumerals(digits: string, n: nat)
    requires IsDigits(digits)
    ensures IsNumeral(digits, n) <==> DigitsValue(digits) == n
  {
    var zeros := NumeralOf(digits);
    assert IsNumeral(digits, DigitsValue(digits));
    forall other | AllZeros(other) && digits == other + Decimal(n)
      ensures DigitsValue(digits) == n
    {
      DecimalIsRead(other, n);
    }
  }

  lemma {:induction false} NumeralOf(digits: string) returns (zeros: string)
    requires IsDigits(digits)
    ensures AllZeros(zeros) && digits == zeros + Decimal(DigitsValue(digits))
  {
    var init, c := digits[..|digits| - 1], digits[|digits| - 1];
    var d := c as int - '0' as int;
    DigitOf(d);
    assert digits == init + [c] && Digit(d) == c;
    DigitsOfOneMore(init, c);
    if DigitsValue(init) == 0 {
      zeros := init;
      OnlyZeros(init);
      assert Decimal(d) == [c];
    } else {
      zeros := NumeralOf(init);
      assert (10 * DigitsValue(init) + d) / 10 == DigitsValue(init);
      assert zeros + Decimal(DigitsValue(init)) + [c] == zeros + (Decimal(DigitsValue(init)) + [c]);
    }
  }

  lemma {:induction false} OnlyZeros(digits: string)
    requires (forall i :: 0 <= i < |digits| ==> '0' <= digits[i] <= '9') && DigitsValue(digits) == 0
    ensures AllZeros(digits)
  {
    if digits != "" {
      OnlyZeros(digits[..|digits| - 1]);
    }
  }

  /* Dict keys */

  /** As keys, True and False are the same as 1 and 0, also inside tuples. */
  predicate SameKey(a: Value, b: Value) {
    match (a, b)
    case (Bool(x), Int(n)) => n == if x then 1 else 0
    case (Int(n), Bool(x)) => n == if x then 1 else 0
    case (Tuple(xs), Tuple(ys)) => |xs| == |ys| && forall i :: 0 <= i < |xs| ==> SameKey(xs[i], ys[i])
    case _ => a == b
  }

  lemma {:induction false} SameKeyIff(a: Value, b: Value)
    ensures DictKey(a) == DictKey(b) <==> SameKey(a, b)
    decreases a
  {
    if a.Tuple? && b.Tuple? {
      var (xs, ys) := (a.elements, b.elements);
      forall i | 0 <= i < |xs| && |xs| == |ys|
        ensures DictKey(xs[i]) == DictKey(ys[i]) <==> SameKey(xs[i], ys[i])
      {
        SameKeyIff(xs[i], ys[i]);
      }
      var (as', bs) := (DictKey(a).elements, DictKey(b).elements);
      assert |as'| == |xs| && forall i :: 0 <= i < |xs| ==> as'[i] == DictKey(xs[i]);
      assert |bs| == |ys| && forall i :: 0 <= i < |ys| ==> bs[i] == DictKey(ys[i]);
      if SameKey(a, b) {
        assert as' == bs;
      } else if |xs| == |ys| {
        var i :| 0 <= i < |xs| && !SameKey(xs[i], ys[i]);
        assert as'[i] != bs[i];
      }
    }
  }

  /** A list or a dict is no key, nor is a tuple that holds one, however deep. */
  ghost predicate HoldsContainer(v: Value) {
    v.List? || v.Dict? || (v.Tuple? && exists i :: 0 <= i < |v.elements| && HoldsContainer(v.elements[i]))
  }

  lemma {:induction false} HashableIff(v: Value)
    ensures Hashable(v) <==> !HoldsContainer(v)
  {
    if v.Tuple? {
      forall i | 0 <= i < |v.elements|
        ensures Hashable(v.elements[i]) <==> !HoldsContainer(v.elements[i])
      {
        HashableIff(v.elements[i]);
      }
    }
  }

  /* What is written, and what is meant by it */

  /** Some character, the text, and that character again. */
  ghost predicate IsQuoted(quoted: string, s: string) {
    exists q :: quoted == [q] + s + [q]
  }

  ghost predicate Writes(e: Expr, v: Value, env: Env) {
    match e
    case Name(id) =>
      if id == "None" then v == NoneValue
      else if id == "True" then v == Bool(true)
      else if id == "False" then v == Bool(false)
      else !("_" <= id) && id in env && v == env[id]
    case Literal(digits) =>
      (v.Int? && v.n >= 0 && IsNumeral(digits, v.n)) || ('.' in digits && v == Float(digits, false))
    case Negative(_, digits) =>
      (v.Int? && v.n <= 0 && IsNumeral(digits, -v.n)) || ('.' in digits && v == Float(digits, true))
    case Text(quoted) => v.Str? && IsQuoted(quoted, v.s)
    case Format(quoted, _, argument) => v.Formatted? && IsQuoted(quoted, v.format) && Writes(argument, v.argument, env)
    case ListOf(items) => v.List? && WritesItems(items, v.items, env)
    case TupleOf(items) => v.Tuple? && WritesItems(items, v.elements, env)
    case DictOf(entries) =>
      v.Dict? && exists pairs :: WritesEntries(entries, pairs, env) && HasLast(v.entries, pairs)
  }

  ghost predicate WritesItems(items: Items, vs: seq<Value>, env: Env) {
    match items
    case NoItems(_) => vs == []
    case Item(_, head, tail) => vs != [] && Writes(head, vs[0], env) && WritesItems(tail, vs[1..], env)
  }

  ghost predicate WritesEntries(entries: Entries, pairs: seq<(Value, Value)>, env: Env) {
    match entries
    case NoEntries(_) => pairs == []
    case Entry(_, key, _, _, value, tail) =>
      && pairs != [] && Writes(key, pairs[0].0, env) && !HoldsContainer(pairs[0].0)
      && Writes(value, pairs[0].1, env) && WritesEntries(tail, pairs[1..], env)
  }

  /** The dict has the keys of the pairs, each with the value of the last pair that has it. */
  ghost predicate HasLast(d: map<Value, Value>, pairs: seq<(Value, Value)>) {
    && (forall k :: k in d <==> exists i :: 0 <= i < |pairs| && DictKey(pairs[i].0) == k)
    && (forall i :: 0 <= i < |pairs| && (forall j :: i < j < |pairs| ==> !SameKey(pairs[i].0, pairs[j].0)) ==>
      DictKey(pairs[i].0) in d && d[DictKey(pairs[i].0)] == pairs[i].1)
  }

  function StoredAll(d: map<Value, Value>, pairs: seq<(Value, Value)>): map<Value, Value>
    decreases |pairs|
  {
    if pairs == [] then d else StoredAll(d[DictKey(pairs[0].0) := pairs[0].1], pairs[1..])
  }

  lemma {:induction false} LastIndex(pairs: seq<(Value, Value)>, k: Value) returns (i: nat)
    requires exists i :: 0 <= i < |pairs| && DictKey(pairs[i].0) == k
    ensures i < |pairs| && DictKey(pairs[i].0) == k
    ensures forall j :: i < j < |pairs| ==> DictKey(pairs[j].0) != k
    decreases |pairs|
  {
    i := |pairs| - 1;
    if DictKey(pairs[i].0) != k {
      var j :| 0 <= j < |pairs| && DictKey(pairs[j].0) == k;
      assert pairs[..i][j] == pairs[j];
      i := LastIndex(pairs[..i], k);
    }
  }

  lemma {:induction false} StoredAllAt(d: map<Value, Value>, pairs: seq<(Value, Value)>, k: Value)
    ensures k in StoredAll(d, pairs) <==> k in d || exists i :: 0 <= i < |pairs| && DictKey(pairs[i].0) == k
    ensures forall i :: 0 <= i < |pairs| && DictKey(pairs[i].0) == k ==>
      (forall j :: i < j < |pairs| ==> DictKey(pairs[j].0) != k) ==> StoredAll(d, pairs)[k] == pairs[i].1
    ensures k in d && (forall i :: 0 <= i < |pairs| ==> DictKey(pairs[i].0) != k) ==> StoredAll(d, pairs)[k] == d[k]
    decreases |pairs|
  {
    if pairs != [] {
      var tail := pairs[1..];
      StoredAllAt(d[DictKey(pairs[0].0) := pairs[0].1], tail, k);
      assert forall i :: 0 <= i < |tail| ==> tail[i] == pairs[i + 1];
      if i :| 0 <= i < |pairs| && DictKey(pairs[i].0) == k {
        assert i > 0 ==> DictKey(tail[i - 1].0) == k;
      }
    }
  }

  lemma LastIsStored(d: map<Value, Value>, pairs: seq<(Value, Value)>)
    requires HasLast(d, pairs)
    ensures StoredAll(map[], pairs) == d
  {
    var all := StoredAll(map[], pairs);
    forall k
      ensures k in all <==> k in d
      ensures k in d ==> all[k] == d[k]
    {
      StoredAllAt(map[], pairs, k);
      if k in d {
        var i := LastIndex(pairs, k);
        forall j | i < j < |pairs|
          ensures !SameKey(pairs[i].0, pairs[j].0)
        {
          SameKeyIff(pairs[i].0, pairs[j].0);
        }
      }
    }
  }

  lemma NumeralIsDigits(digits: string, n: nat)
    requires IsNumeral(digits, n)
    ensures IsDigits(digits) && DigitsValue(digits) == n
  {
    var zeros :| AllZeros(zeros) && digits == zeros + Decimal(n);
    DecimalIsRead(zeros, n);
  }

  lemma NumeralIsRead(digits: string, n: nat)
    requires IsNumeral(digits, n)
    ensures Number(digits, false) == Ok(Int(n)) && Number(digits, true) == Ok(Int(-(n as int)))
  {
    NumeralIsDigits(digits, n);
    assert forall i :: 0 <= i < |digits| ==> digits[i] != '.';
  }

  lemma QuotedIsRead(quoted: string, s: string)
    requires IsQuoted(quoted, s)
    ensures Unquoted(quoted) == s
  {
  }

  lemma {:induction false} WrittenEvaluates(e: Expr, v: Value, env: Env)
    requires Writes(e, v, env)
    ensures Eval(e, env) == Ok(v)
    decreases e
  {
    match e
    case Name(_) =>
    case Literal(digits) =>
      if v.Int? {
        NumeralIsRead(digits, v.n);
      }
    case Negative(_, digits) =>
      if v.Int? {
        NumeralIsRead(digits, -v.n);
      }
    case Text(quoted) =>
      QuotedIsRead(quoted, v.s);
    case Format(quoted, _, argument) =>
      QuotedIsRead(quoted, v.format);
      WrittenEvaluates(argument, v.argument, env);
    case ListOf(items) =>
      WrittenItemsEvaluate(items, v.items, env, []);
      assert [] + v.items == v.items;
    case TupleOf(items) =>
      WrittenItemsEvaluate(items, v.elements, env, []);
      assert [] + v.elements == v.elements;
    case DictOf(entries) =>
      var pairs :| WritesEntries(entries, pairs, env) && HasLast(v.entries, pairs);
      WrittenEntriesEvaluate(entries, pairs, env, map[]);
      LastIsStored(v.entries, pairs);
  }

  lemma {:induction false} WrittenItemsEvaluate(items: Items, vs: seq<Value>, env: Env, done: seq<Value>)
    requires WritesItems(items, vs, env)
    ensures EvalItems(items, env, done) == Ok(done + vs)
    decreases items
  {
    match items
    case NoItems(_) =>
      assert done + [] == done;
    case Item(_, head, tail) =>
      WrittenEvaluates(head, vs[0], env);
      WrittenItemsEvaluate(tail, vs[1..], env, done + [vs[0]]);
      assert done + [vs[0]] + vs[1..] == done + vs;
  }

  lemma {:induction false} WrittenEntriesEvaluate(
      entries: Entries, pairs: seq<(Value, Value)>, env: Env, done: map<Value, Value>)
    requires WritesEntries(entries, pairs, env)
    ensures EvalEntries(entries, env, done) == Ok(StoredAll(done, pairs))
    decreases entries
  {
    match entries
    case NoEntries(_) =>
    case Entry(_, key, _, _, value, tail) =>
      WrittenEvaluates(key, pairs[0].0, env);
      WrittenEvaluates(value, pairs[0].1, env);
      HashableIff(pairs[0].0);
      WrittenEntriesEvaluate(tail, pairs[1..], env, done[DictKey(pairs[0].0) := pairs[0].1]);
  }

  /* What is written is read */

  /** Comments, indentation and line ends are skipped, and between elements of containers commas; nothing else is. */
  lemma SkippedTokens(t: Token, ts: seq<Token>)
    ensures
      Fetch([t] + ts) ==
      if t.kind in {COMMENT, INDENT, DEDENT, NL, NEWLINE} then Fetch(ts) else Some((t, ts))
    ensures t.kind == OP ==>
      FetchPastCommas([t] + ts) == if t.text == "," then FetchPastCommas(ts) else Some((t, ts))
  {
    assert ([t] + ts)[1..] == ts;
  }

  /** Whatever the layout, a value that is written so is read back as that value, up to the tokens after it. */
  lemma WrittenIsRead(gap: Gap, e: Expr, v: Value, env: Env, after: seq<Token>)
    requires IsNoiseGap(gap) && WellFormed(e) && (EndsInString(e) ==> Follows(after)) && Writes(e, v, env)
    ensures NextValue(gap + Render(e, after), env) == Ok((v, after))
  {
    WrittenEvaluates(e, v, env);
    ParsesRendering(gap, e, env, after);
  }

  lemma DecimalIsNumeral(n: nat)
    ensures IsNumeral(Decimal(n), n) && Decimal(n) != "%"
  {
    assert AllZeros("") && "" + Decimal(n) == Decimal(n);
    DecimalIsRead("", n);
    assert '0' <= Decimal(n)[0] <= '9' by {
      assert ("" + Decimal(n))[0] == Decimal(n)[0];
    }
  }

  lemma NumeralTokenIsRead(gap: Gap, n: nat, env: Env, after: seq<Token>)
    requires IsNoiseGap(gap)
    ensures NextValue(gap + ([Token(NUMBER, Decimal(n))] + after), env) == Ok((Int(n), after))
  {
    DecimalIsNumeral(n);
    WrittenIsRead(gap, Literal(Decimal(n)), Int(n), env, after);
  }

  lemma NegatedTokenIsRead(gap: Gap, signGap: Gap, n: nat, env: Env, after: seq<Token>)
    requires IsNoiseGap(gap) && IsNoiseGap(signGap)
    ensures
      NextValue(gap + ([Op("-")] + (signGap + ([Token(NUMBER, Decimal(n))] + after))), env) ==
      Ok((Int(-(n as int)), after))
  {
    DecimalIsNumeral(n);
    WrittenIsRead(gap, Negative(signGap, Decimal(n)), Int(-(n as int)), env, after);
  }

  /** In particular, every integer is read from its decimal numeral, with a minus sign before it if it is negative. */
  lemma IntegersAreRead(gap: Gap, signGap: Gap, n: nat, env: Env, after: seq<Token>)
    requires IsNoiseGap(gap) && IsNoiseGap(signGap)
    ensures NextValue(gap + ([Token(NUMBER, Decimal(n))] + after), env) == Ok((Int(n), after))
    ensures
      NextValue(gap + ([Op("-")] + (signGap + ([Token(NUMBER, Decimal(n))] + after))), env) ==
      Ok((Int(-(n as int)), after))
  {
    NumeralTokenIsRead(gap, n, env, after);
    NegatedTokenIsRead(gap, signGap, n, env, after);
  }

  /** And every text from that text in quotes, unless a percent sign follows. */
  lemma TextsAreRead(gap: Gap, quote: char, s: string, env: Env, after: seq<Token>)
    requires IsNoiseGap(gap) && Follows(after)
    ensures NextValue(gap + ([Token(STRING, [quote] + s + [quote])] + after), env) == Ok((Str(s), after))
  {
    var quoted := [quote] + s + [quote];
    assert IsQuoted(quoted, s) && |quoted| >= 2;
    WrittenIsRead(gap, Text(quoted), Str(s), env, after);
  }

  /**
   The three constants are read as themselves, whatever the settings; any other name as its setting, or it is a key
   error if there is none or if the name begins with an underscore.
   */
  lemma NamesAreRead(gap: Gap, id: string, env: Env, after: seq<Token>)
    requires IsNoiseGap(gap) && id != "%"
    ensures
      NextValue(gap + ([Token(NAME, id)] + after), env) ==
      if id == "None" then Ok((NoneValue, after))
      else if id == "True" then Ok((Bool(true), after))
      else if id == "False" then Ok((Bool(false), after))
      else if "_" <= id || id !in env then Err(KeyError(id))
      else Ok((env[id], after))
  {
    ParsesRendering(gap, Name(id), env, after);
  }

  /** A number without a point that is no numeral is a value error, with or without a sign. */
  lemma OtherNumbersAreErrors(gap: Gap, signGap: Gap, digits: string, env: Env, after: seq<Token>)
    requires IsNoiseGap(gap) && IsNoiseGap(signGap) && digits != "%" && '.' !in digits
    requires forall n :: !IsNumeral(digits, n)
    ensures NextValue(gap + ([Token(NUMBER, digits)] + after), env) == Err(ValueError(digits))
    ensures
      NextValue(gap + ([Op("-")] + (signGap + ([Token(NUMBER, digits)] + after))), env) == Err(ValueError(digits))
  {
    if IsDigits(digits) {
      DigitsAreNumerals(digits, DigitsValue(digits));
    }
    ParsesRendering(gap, Literal(digits), env, after);
    ParsesRendering(gap, Negative(signGap, digits), env, after);
  }

  /** Of two entries with the same key, the later one is found, under either spelling of the key. */
  lemma LaterEntryIsFound(
      gap: Gap, entries: Entries, pairs: seq<(Value, Value)>, env: Env, after: seq<Token>, i: nat, key: Value)
    requires IsNoiseGap(gap) && EntriesWellFormed(entries) && WritesEntries(entries, pairs, env)
    requires i < |pairs| && SameKey(pairs[i].0, key)
    requires forall j :: i < j < |pairs| ==> !SameKey(pairs[j].0, key)
    ensures
      var r := NextValue(gap + Render(DictOf(entries), after), env);
      && r.Ok? && r.value.0.Dict? && r.value.1 == after
      && DictKey(key) in r.value.0.entries && r.value.0.entries[DictKey(key)] == pairs[i].1
  {
    ParsesRendering(gap, DictOf(entries), env, after);
    WrittenEntriesEvaluate(entries, pairs, env, map[]);
    SameKeyIff(pairs[i].0, key);
    forall j | i < j < |pairs|
      ensures DictKey(pairs[j].0) != DictKey(key)
    {
      SameKeyIff(pairs[j].0, key);
    }
    StoredAllAt(map[], pairs, DictKey(key));
  }

  /** A key that is or holds a list or a dict stops the reading of the dict. */
  lemma ContainerIsNoKey(gap: Gap, entries: Entries, key: Value, v: Value, env: Env, after: seq<Token>)
    requires IsNoiseGap(gap) && EntriesWellFormed(entries) && entries.Entry? && HoldsContainer(key)
    requires Writes(entries.key, key, env) && Writes(entries.value, v, env)
    ensures NextValue(gap + Render(DictOf(entries), after), env) == Err(Unhashable)
  {
    ParsesRendering(gap, DictOf(entries), env, after);
    WrittenEvaluates(entries.key, key, env);
    WrittenEvaluates(entries.value, v, env);
    HashableIff(key);
  }

  /** A whole file: each name is left with what the last assignment to it writes. */
  lemma WrittenIsLoaded(
      p: seq<Assignment>, env: Env, keywords: set<string>, end: Token, rest: seq<Token>, i: nat, v: Value)
    requires ProgramWellFormed(p, keywords) && Run(p, env).1.None? && i < |p| && IsLast(p, i, p[i].name)
    requires Writes(p[i].value, v, Before(p, i, env))
    requires end.kind == ENDMARKER && end.text == "" && "" !in keywords
    ensures
      var (left, error) := Loaded(RenderProgram(p, [end] + rest), env, keywords);
      error.None? && p[i].name in left && left[p[i].name] == v
  {
    LoadsProgram(p, env, keywords, [end] + rest);
    LastAssignmentWins(p, env, i, p[i].name);
    WrittenEvaluates(p[i].value, v, Before(p, i, env));
  }
}
