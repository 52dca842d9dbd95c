/**
 The language that the configuration parser accepts, as syntax trees that carry their own layout: every comment and line
 break, and every comma that is missing, repeated or trailing. `Render` gives the tokens of a tree and `Eval` its value.
 The parser accepts exactly the renderings, and computes exactly the values.
 */
module PySyntax {
  import opened Prelude
  import opened PyValues
  import opened PyConfig

  /** Layout between two tokens: only noise, or also commas between the elements of a container. */
  type Gap = seq<Token>

  datatype Expr =
    | Name(id: string)
    | Literal(digits: string)
    | Negative(gap: Gap, digits: string)
    | Text(quoted: string)
    | Format(quoted: string, gap: Gap, argument: Expr)
    | ListOf(items: Items)
    | TupleOf(items: Items)
    | DictOf(entries: Entries)

  datatype Items = NoItems(gap: Gap) | Item(gap: Gap, head: Expr, tail: Items)

  datatype Entries =
    | NoEntries(gap: Gap)
    | Entry(gap: Gap, key: Expr, beforeColon: Gap, afterColon: Gap, value: Expr, tail: Entries)

  /* Well-formed layout */

  /** As in every tokenized text, only the operator itself reads as a percent sign. */
  predicate Tokenized(t: Token) {
    t.text == "%" ==> t.kind == OP
  }

  predicate IsNoiseGap(gap: Gap) {
    forall i :: 0 <= i < |gap| ==> IsNoise(gap[i]) && Tokenized(gap[i])
  }

  predicate IsCommaGap(gap: Gap) {
    forall i :: 0 <= i < |gap| ==> (IsNoise(gap[i]) || gap[i] == Op(",")) && Tokenized(gap[i])
  }

  predicate WellFormed(e: Expr) {
    match e
    case Name(id) => id != "%"
    case Literal(digits) => digits != "%"
    case Negative(gap, digits) => IsNoiseGap(gap) && digits != "%"
    case Text(quoted) => quoted != "%"
    case Format(quoted, gap, argument) => quoted != "%" && IsNoiseGap(gap) && WellFormed(argument)
    case ListOf(items) => ItemsWellFormed(items)
    case TupleOf(items) => ItemsWellFormed(items)
    case DictOf(entries) => EntriesWellFormed(entries)
  }

  predicate ItemsWellFormed(items: Items) {
    match items
    case NoItems(gap) => IsCommaGap(gap)
    case Item(gap, head, tail) => IsCommaGap(gap) && WellFormed(head) && ItemsWellFormed(tail)
  }

  predicate EntriesWellFormed(entries: Entries) {
    match entries
    case NoEntries(gap) => IsCommaGap(gap)
    case Entry(gap, key, g1, g2, value, tail) =>
      && IsCommaGap(gap) && IsNoiseGap(g1) && IsNoiseGap(g2)
      && IsBasic(key) && WellFormed(key) && WellFormed(value) && EntriesWellFormed(tail)
  }

  /** What a dict key may be. */
  predicate IsBasic(e: Expr) {
    !e.ListOf? && !e.TupleOf? && !e.DictOf?
  }

  /* Tokens of a tree */

  function First(e: Expr): Token {
    match e
    case Name(id) => Token(NAME, id)
    case Literal(digits) => Token(NUMBER, digits)
    case Negative(_, _) => Op("-")
    case Text(quoted) => Token(STRING, quoted)
    case Format(quoted, _, _) => Token(STRING, quoted)
    case ListOf(_) => Op("[")
    case TupleOf(_) => Op("(")
    case DictOf(_) => Op("{")
  }

  /** The tokens of the tree after its first one, and then `after`. */
  function Rest(e: Expr, after: seq<Token>): seq<Token>
    decreases e, 0
  {
    match e
    case Negative(gap, digits) => gap + ([Token(NUMBER, digits)] + after)
    case Format(_, gap, argument) => [Op("%")] + (gap + Render(argument, after))
    case ListOf(items) => RenderItems(items, "]", after)
    case TupleOf(items) => RenderItems(items, ")", after)
    case DictOf(entries) => RenderEntries(entries, after)
    case _ => after
  }

  function Render(e: Expr, after: seq<Token>): seq<Token>
    decreases e, 1
  {
    [First(e)] + Rest(e, after)
  }

  function RenderItems(items: Items, closer: string, after: seq<Token>): seq<Token>
    decreases items, 0
  {
    match items
    case NoItems(gap) => gap + ([Op(closer)] + after)
    case Item(gap, head, tail) => gap + Render(head, RenderItems(tail, closer, after))
  }

  function RenderEntries(entries: Entries, after: seq<Token>): seq<Token>
    decreases entries, 0
  {
    match entries
    case NoEntries(gap) => gap + ([Op("}")] + after)
    case Entry(gap, key, g1, g2, value, tail) =>
      gap + Render(key, g1 + ([Op(":")] + (g2 + Render(value, RenderEntries(tail, after)))))
  }

  /* Value of a tree, left to right */

  function Eval(e: Expr, env: Env): Result<Value, ParseError> {
    match e
    case Name(id) => Lookup(env, id)
    case Literal(digits) => Number(digits, false)
    case Negative(_, digits) => Number(digits, true)
    case Text(quoted) => Ok(Str(Unquoted(quoted)))
    case Format(quoted, _, argument) =>
      (match Eval(argument, env) case Err(x) => Err(x) case Ok(v) => Ok(Formatted(Unquoted(quoted), v)))
    case ListOf(items) =>
      (match EvalItems(items, env, []) case Err(x) => Err(x) case Ok(vs) => Ok(List(vs)))
    case TupleOf(items) =>
      (match EvalItems(items, env, []) case Err(x) => Err(x) case Ok(vs) => Ok(Tuple(vs)))
    case DictOf(entries) =>
      (match EvalEntries(entries, env, map[]) case Err(x) => Err(x) case Ok(d) => Ok(Dict(d)))
  }

  function EvalItems(items: Items, env: Env, done: seq<Value>): Result<seq<Value>, ParseError> {
    match items
    case NoItems(_) => Ok(done)
    case Item(_, head, tail) =>
      match Eval(head, env)
      case Err(x) => Err(x)
      case Ok(v) => EvalItems(tail, env, done + [v])
  }

  function EvalEntries(entries: Entries, env: Env, done: map<Value, Value>): Result<map<Value, Value>, ParseError> {
    match entries
    case NoEntries(_) => Ok(done)
    case Entry(_, key, _, _, value, tail) =>
      match Eval(key, env)
      case Err(x) => Err(x)
      case Ok(k) =>
        match Eval(value, env)
        case Err(x) => Err(x)
        case Ok(v) =>
          match Stored(done, k, v)
          case Err(x) => Err(x)
          case Ok(more) => EvalEntries(tail, env, more)
  }

  /* Every rendering is parsed, to its value, and nothing after it is touched */

  /** What may follow a value: the lookahead after a string must find a token, and not a percent sign. */
  predicate Follows(ts: seq<Token>) {
    ts != [] && ts[0].text != "%"
  }

  predicate EndsInString(e: Expr) {
    e.Text? || (e.Format? && EndsInString(e.argument))
  }

  lemma {:induction false} FetchSkips(gap: Gap, t: Token, rest: seq<Token>)
    requires IsNoiseGap(gap) && !IsNoise(t)
    ensures Fetch(gap + ([t] + rest)) == Some((t, rest))
  {
    var ts := gap + ([t] + rest);
    if gap == [] {
      assert ts == [t] + rest;
    } else {
      assert ts[1..] == gap[1..] + ([t] + rest);
      FetchSkips(gap[1..], t, rest);
    }
  }

  lemma {:induction false} FetchSkipsCommas(gap: Gap, t: Token, rest: seq<Token>)
    requires IsCommaGap(gap) && !IsNoise(t) && t != Op(",")
    ensures FetchPastCommas(gap + ([t] + rest)) == Some((t, rest))
  {
    var ts := gap + ([t] + rest);
    if gap == [] {
      assert ts == [t] + rest;
    } else {
      assert ts[1..] == gap[1..] + ([t] + rest);
      FetchSkipsCommas(gap[1..], t, rest);
    }
  }

  lemma FetchFirst(gap: Gap, e: Expr, after: seq<Token>)
    ensures IsNoiseGap(gap) ==> Fetch(gap + Render(e, after)) == Some((First(e), Rest(e, after)))
    ensures IsCommaGap(gap) ==> FetchPastCommas(gap + Render(e, after)) == Some((First(e), Rest(e, after)))
  {
    if IsNoiseGap(gap) {
      FetchSkips(gap, First(e), Rest(e, after));
    }
    if IsCommaGap(gap) {
      FetchSkipsCommas(gap, First(e), Rest(e, after));
    }
  }

  /** Layout, items and closing brackets may all follow a value. */
  lemma LayoutFollows(gap: Gap, t: Token, after: seq<Token>)
    requires IsCommaGap(gap) && t.text != "%"
    ensures Follows(gap + ([t] + after))
  {
    if gap != [] {
      assert (gap + ([t] + after))[0] == gap[0];
    }
  }

  lemma ItemsFollow(items: Items, closer: string, after: seq<Token>)
    requires ItemsWellFormed(items) && closer != "%"
    ensures Follows(RenderItems(items, closer, after))
  {
    match items
    case NoItems(gap) => LayoutFollows(gap, Op(closer), after);
    case Item(gap, head, tail) => LayoutFollows(gap, First(head), Rest(head, RenderItems(tail, closer, after)));
  }

  lemma EntriesFollow(entries: Entries, after: seq<Token>)
    requires EntriesWellFormed(entries)
    ensures Follows(RenderEntries(entries, after))
  {
    match entries
    case NoEntries(gap) => LayoutFollows(gap, Op("}"), after);
    case Entry(gap, key, g1, g2, value, tail) =>
      LayoutFollows(gap, First(key), Rest(key, g1 + ([Op(":")] + (g2 + Render(value, RenderEntries(tail, after))))));
  }

  lemma NegativeStep(gap: Gap, digits: string, env: Env, basic: bool, after: seq<Token>)
    requires IsNoiseGap(gap)
    ensures ValueAt(Op("-"), gap + ([Token(NUMBER, digits)] + after), env, basic) == At(Number(digits, true), after)
  {
    FetchSkips(gap, Token(NUMBER, digits), after);
  }

  lemma FormatStep(t: Token, gap: Gap, argument: Expr, env: Env, basic: bool, after: seq<Token>)
    requires t.kind == STRING && IsNoiseGap(gap)
    ensures
      ValueAt(t, [Op("%")] + (gap + Render(argument, after)), env, basic) ==
      match ValueAt(First(argument), Rest(argument, after), env, false)
      case Err(e) => Err(e)
      case Ok((v, rest)) => Ok((Formatted(Unquoted(t.text), v), rest))
  {
    var tail := gap + Render(argument, after);
    assert Fetch([Op("%")] + tail) == Some((Op("%"), tail)) by {
      assert ([Op("%")] + tail)[1..] == tail;
    }
    FetchFirst(gap, argument, after);
  }

  lemma {:induction false} ParsesExpr(e: Expr, env: Env, basic: bool, after: seq<Token>)
    requires WellFormed(e) && (EndsInString(e) ==> Follows(after)) && (basic ==> IsBasic(e))
    ensures ValueAt(First(e), Rest(e, after), env, basic) == At(Eval(e, env), after)
  {
    match e
    case Name(_) =>
    case Literal(_) =>
    case Negative(gap, digits) =>
      NegativeStep(gap, digits, env, basic, after);
    case Text(_) =>
    case Format(_, gap, argument) =>
      ParsesExpr(argument, env, false, after);
      FormatStep(First(e), gap, argument, env, basic, after);
    case ListOf(items) =>
      ParsesItems(items, env, "]", [], after);
    case TupleOf(items) =>
      ParsesItems(items, env, ")", [], after);
    case DictOf(entries) =>
      ParsesEntries(entries, env, map[], after);
  }

  lemma {:induction false} ParsesItems(items: Items, env: Env, closer: string, done: seq<Value>, after: seq<Token>)
    requires ItemsWellFormed(items) && closer in {"]", ")"}
    ensures ItemsAt(RenderItems(items, closer, after), env, closer, done) == At(EvalItems(items, env, done), after)
  {
    match items
    case NoItems(gap) =>
      FetchSkipsCommas(gap, Op(closer), after);
    case Item(gap, head, tail) =>
      var tailTokens := RenderItems(tail, closer, after);
      FetchFirst(gap, head, tailTokens);
      ItemsFollow(tail, closer, after);
      ParsesExpr(head, env, false, tailTokens);
      if Eval(head, env).Ok? {
        ParsesItems(tail, env, closer, done + [Eval(head, env).value], after);
      }
  }

  lemma {:induction false} ParsesEntries(entries: Entries, env: Env, done: map<Value, Value>, after: seq<Token>)
    requires EntriesWellFormed(entries)
    ensures EntriesAt(RenderEntries(entries, after), env, done) == At(EvalEntries(entries, env, done), after)
  {
    match entries
    case NoEntries(gap) =>
      FetchSkipsCommas(gap, Op("}"), after);
    case Entry(gap, key, g1, g2, value, tail) =>
      var tailTokens := RenderEntries(tail, after);
      var colon := g1 + ([Op(":")] + (g2 + Render(value, tailTokens)));
      LayoutFollows(g1, Op(":"), g2 + Render(value, tailTokens));
      ParsesExpr(key, env, true, colon);
      EntriesFollow(tail, after);
      ParsesExpr(value, env, false, tailTokens);
      EntryStep(gap, key, g1, g2, value, tailTokens, env, done);
      if Eval(key, env).Ok? && Eval(value, env).Ok? {
        var stored := Stored(done, Eval(key, env).value, Eval(value, env).value);
        if stored.Ok? {
          ParsesEntries(tail, env, stored.value, after);
        }
      }
  }

  /** The rest of a dict, once the key and the value of an entry have been read. */
  function AfterEntry(
      key: Result<Value, ParseError>, value: Result<Value, ParseError>, tail: seq<Token>, env: Env,
      done: map<Value, Value>): Parse<map<Value, Value>>
  {
    if key.Err? then Err(key.error)
    else if value.Err? then Err(value.error)
    else
      var stored := Stored(done, key.value, value.value);
      if stored.Err? then Err(stored.error) else EntriesAt(tail, env, stored.value)
  }

  lemma EntryStep(
      gap: Gap, key: Expr, g1: Gap, g2: Gap, value: Expr, tail: seq<Token>, env: Env, done: map<Value, Value>)
    requires IsCommaGap(gap) && IsNoiseGap(g1) && IsNoiseGap(g2)
    requires
      var colon := g1 + ([Op(":")] + (g2 + Render(value, tail)));
      ValueAt(First(key), Rest(key, colon), env, true) == At(Eval(key, env), colon)
    requires ValueAt(First(value), Rest(value, tail), env, false) == At(Eval(value, env), tail)
    ensures
      EntriesAt(gap + Render(key, g1 + ([Op(":")] + (g2 + Render(value, tail)))), env, done) ==
      AfterEntry(Eval(key, env), Eval(value, env), tail, env, done)
  {
    var colon := g1 + ([Op(":")] + (g2 + Render(value, tail)));
    FetchFirst(gap, key, colon);
    FetchSkips(g1, Op(":"), g2 + Render(value, tail));
    FetchFirst(g2, value, tail);
  }

  /* Whatever is parsed is the rendering of some tree */

  predicate AllTokenized(ts: seq<Token>) {
    forall i :: 0 <= i < |ts| ==> Tokenized(ts[i])
  }

  lemma TokenizedParts(ts: seq<Token>, a: seq<Token>, b: seq<Token>)
    requires ts == a + b && AllTokenized(ts)
    ensures AllTokenized(a) && AllTokenized(b)
  {
    assert forall i :: 0 <= i < |a| ==> ts[i] == a[i];
    assert forall i :: 0 <= i < |b| ==> ts[|a| + i] == b[i];
  }

  lemma {:induction false} ReadGap(ts: seq<Token>) returns (gap: Gap)
    requires Fetch(ts).Some? && AllTokenized(ts)
    ensures
      var (t, rest) := Fetch(ts).value;
      IsNoiseGap(gap) && ts == gap + ([t] + rest) && Tokenized(t) && AllTokenized(rest)
  {
    if IsNoise(ts[0]) {
      TokenizedParts(ts, [ts[0]], ts[1..]);
      var more := ReadGap(ts[1..]);
      gap := [ts[0]] + more;
    } else {
      gap := [];
      TokenizedParts(ts, [ts[0]], ts[1..]);
    }
  }

  lemma JoinGaps(gap: Gap, more: Gap, after: seq<Token>)
    requires IsNoiseGap(gap) && IsCommaGap(more)
    ensures IsCommaGap(gap + [Op(",")] + more)
    ensures gap + ([Op(",")] + (more + after)) == gap + [Op(",")] + more + after
  {
  }

  lemma {:induction false} ReadCommaGap(ts: seq<Token>) returns (gap: Gap)
    requires FetchPastCommas(ts).Some? && AllTokenized(ts)
    ensures
      var (t, rest) := FetchPastCommas(ts).value;
      IsCommaGap(gap) && ts == gap + ([t] + rest) && Tokenized(t) && AllTokenized(rest)
    decreases |ts|
  {
    gap := ReadGap(ts);
    var (t, rest) := Fetch(ts).value;
    if t == Op(",") {
      var more := ReadCommaGap(rest);
      var (u, after) := FetchPastCommas(rest).value;
      JoinGaps(gap, more, [u] + after);
      gap := gap + [t] + more;
    }
  }

  lemma {:induction false} ReadExpr(t: Token, ts: seq<Token>, env: Env, basic: bool) returns (e: Expr)
    requires ValueAt(t, ts, env, basic).Ok? && Tokenized(t) && AllTokenized(ts)
    ensures
      var (v, after) := ValueAt(t, ts, env, basic).value;
      && WellFormed(e) && (basic ==> IsBasic(e)) && (EndsInString(e) ==> Follows(after)) && AllTokenized(after)
      && First(e) == t && Rest(e, after) == ts && Eval(e, env) == Ok(v)
    decreases |ts|, 1
  {
    if t == Op("-") {
      var gap := ReadGap(ts);
      e := Negative(gap, Fetch(ts).value.0.text);
    } else if t.kind == NAME {
      e := Name(t.text);
    } else if t.kind == NUMBER {
      e := Literal(t.text);
    } else if t.kind == STRING {
      if ts[0].text != "%" {
        e := Text(t.text);
      } else {
        var noGap := ReadGap(ts);
        var gap, argument := ReadValue(ts[1..], env);
        e := Format(t.text, gap, argument);
      }
    } else if t == Op("{") {
      var entries := ReadEntries(ts, env, map[]);
      e := DictOf(entries);
    } else if t == Op("[") {
      var items := ReadItems(ts, env, "]", []);
      e := ListOf(items);
    } else {
      var items := ReadItems(ts, env, ")", []);
      e := TupleOf(items);
    }
  }

  lemma {:induction false} ReadValue(ts: seq<Token>, env: Env) returns (gap: Gap, e: Expr)
    requires NextValue(ts, env).Ok? && AllTokenized(ts)
    ensures
      var (v, after) := NextValue(ts, env).value;
      && IsNoiseGap(gap) && WellFormed(e) && (EndsInString(e) ==> Follows(after)) && AllTokenized(after)
      && ts == gap + Render(e, after) && Eval(e, env) == Ok(v)
    decreases |ts|, 0
  {
    gap := ReadGap(ts);
    e := ReadExpr(Fetch(ts).value.0, Fetch(ts).value.1, env, false);
  }

  lemma {:induction false} ReadItems(ts: seq<Token>, env: Env, closer: string, done: seq<Value>) returns (items: Items)
    requires ItemsAt(ts, env, closer, done).Ok? && AllTokenized(ts)
    ensures
      var (vs, after) := ItemsAt(ts, env, closer, done).value;
      && ItemsWellFormed(items) && AllTokenized(after)
      && RenderItems(items, closer, after) == ts && EvalItems(items, env, done) == Ok(vs)
    decreases |ts|, 0
  {
    var gap := ReadCommaGap(ts);
    var (t, rest) := FetchPastCommas(ts).value;
    if t == Op(closer) {
      items := NoItems(gap);
    } else {
      var head := ReadExpr(t, rest, env, false);
      var (v, after) := ValueAt(t, rest, env, false).value;
      var tail := ReadItems(after, env, closer, done + [v]);
      items := Item(gap, head, tail);
    }
  }

  lemma {:induction false} ReadEntries(ts: seq<Token>, env: Env, done: map<Value, Value>) returns (entries: Entries)
    requires EntriesAt(ts, env, done).Ok? && AllTokenized(ts)
    ensures
      var (d, after) := EntriesAt(ts, env, done).value;
      && EntriesWellFormed(entries) && AllTokenized(after)
      && RenderEntries(entries, after) == ts && EvalEntries(entries, env, done) == Ok(d)
    decreases |ts|, 0
  {
    var gap := ReadCommaGap(ts);
    var (t, rest) := FetchPastCommas(ts).value;
    if t == Op("}") {
      entries := NoEntries(gap);
    } else {
      var key := ReadExpr(t, rest, env, true);
      var (k, afterKey) := ValueAt(t, rest, env, true).value;
      var g1 := ReadGap(afterKey);
      var g2, value := ReadValue(Fetch(afterKey).value.1, env);
      var (v, after) := NextValue(Fetch(afterKey).value.1, env).value;
      var tail := ReadEntries(after, env, Stored(done, k, v).value);
      entries := Entry(gap, key, g1, g2, value, tail);
    }
  }

  /* Both directions together */

  /**
   Completeness: whatever the layout, reading a rendered value gives its value, or the first error of evaluating it
   from left to right, and leaves exactly the tokens after it.
   */
  lemma ParsesRendering(gap: Gap, e: Expr, env: Env, after: seq<Token>)
    requires IsNoiseGap(gap) && WellFormed(e) && (EndsInString(e) ==> Follows(after))
    ensures NextValue(gap + Render(e, after), env) == At(Eval(e, env), after)
  {
    FetchFirst(gap, e, after);
    ParsesExpr(e, env, false, after);
  }

  /** The tokens `ts` are a layout of a tree with value `v`, and then `after`. */
  ghost predicate Spells(ts: seq<Token>, gap: Gap, e: Expr, env: Env, v: Value, after: seq<Token>) {
    && IsNoiseGap(gap) && WellFormed(e) && (EndsInString(e) ==> Follows(after))
    && ts == gap + Render(e, after) && Eval(e, env) == Ok(v)
  }

  /** The parser reads a value from the tokens, stopping at `after`, exactly when the tokens spell that value. */
  lemma ParserIsExact(ts: seq<Token>, env: Env, v: Value, after: seq<Token>)
    requires AllTokenized(ts)
    ensures NextValue(ts, env) == Ok((v, after)) <==> exists gap, e :: Spells(ts, gap, e, env, v, after)
  {
    if NextValue(ts, env) == Ok((v, after)) {
      var gap, e := ReadValue(ts, env);
      assert Spells(ts, gap, e, env, v, after);
    }
    forall gap, e | Spells(ts, gap, e, env, v, after)
      ensures NextValue(ts, env) == Ok((v, after))
    {
      ParsesRendering(gap, e, env, after);
    }
  }
}
