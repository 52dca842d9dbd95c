/**
 The parser of the Python-like configuration syntax: recursive descent over a token stream, one token at a time, with
 one token of lookahead after a string. The functions say what each parsing step makes of a token stream; the class
 does it by moving its current token.
 */
module PyConfig {
  import opened Prelude
  import opened PyValues

  type Parse<T> = Result<(T, seq<Token>), ParseError>

  /** The next token that is not noise, and the tokens after it. */
  function Fetch(ts: seq<Token>): (r: Option<(Token, seq<Token>)>)
    ensures r.Some? ==> |r.value.1| < |ts| && !IsNoise(r.value.0)
  {
    if ts == [] then None
    else if IsNoise(ts[0]) then Fetch(ts[1..])
    else Some((ts[0], ts[1..]))
  }

  /** The next token that is neither noise nor a comma. */
  function FetchPastCommas(ts: seq<Token>): (r: Option<(Token, seq<Token>)>)
    ensures r.Some? ==> |r.value.1| < |ts| && !IsNoise(r.value.0)
    decreases |ts|
  {
    match Fetch(ts)
    case None => None
    case Some((t, rest)) => if t == Op(",") then FetchPastCommas(rest) else Some((t, rest))
  }

  /** The value that starts at the current token `t` and continues in `ts`. */
  function ValueAt(t: Token, ts: seq<Token>, env: Env, basic: bool): (r: Parse<Value>)
    ensures r.Ok? ==> |r.value.1| <= |ts|
    decreases |ts|, 1
  {
    if t == Op("-") then
      match Fetch(ts)
      case None => Err(OutOfTokens)
      case Some((number, rest)) =>
        if number.kind != NUMBER then Err(SyntaxError) else At(Number(number.text, true), rest)
    else if t.kind == NAME then At(Lookup(env, t.text), ts)
    else if t.kind == NUMBER then At(Number(t.text, false), ts)
    else if t.kind == STRING then
      if ts == [] then Err(OutOfTokens)
      else if ts[0].text != "%" then Ok((Str(Unquoted(t.text)), ts))
      else
        match Fetch(ts)
        case None => Err(OutOfTokens)
        case Some((percent, rest)) =>
          if percent != Op("%") then Err(SyntaxError)
          else
            match NextValue(rest, env)
            case Err(e) => Err(e)
            case Ok((argument, after)) => Ok((Formatted(Unquoted(t.text), argument), after))
    else if basic then Err(SyntaxError)
    else if t == Op("{") then
      match EntriesAt(ts, env, map[])
      case Err(e) => Err(e)
      case Ok((entries, rest)) => Ok((Dict(entries), rest))
    else if t == Op("[") then
      match ItemsAt(ts, env, "]", [])
      case Err(e) => Err(e)
      case Ok((items, rest)) => Ok((List(items), rest))
    else if t == Op("(") then
      match ItemsAt(ts, env, ")", [])
      case Err(e) => Err(e)
      case Ok((items, rest)) => Ok((Tuple(items), rest))
    else Err(SyntaxError)
  }

  function At<T>(r: Result<T, ParseError>, rest: seq<Token>): Parse<T> {
    match r
    case Err(e) => Err(e)
    case Ok(v) => Ok((v, rest))
  }

  /** The value that starts at the next token. */
  function NextValue(ts: seq<Token>, env: Env): (r: Parse<Value>)
    ensures r.Ok? ==> |r.value.1| < |ts|
    decreases |ts|, 0
  {
    match Fetch(ts)
    case None => Err(OutOfTokens)
    case Some((t, rest)) => ValueAt(t, rest, env, false)
  }

  /** The rest of a list or tuple of which `done` has been read. */
  function ItemsAt(ts: seq<Token>, env: Env, closer: string, done: seq<Value>): (r: Parse<seq<Value>>)
    ensures r.Ok? ==> |r.value.1| < |ts|
    decreases |ts|, 0
  {
    match FetchPastCommas(ts)
    case None => Err(OutOfTokens)
    case Some((t, rest)) =>
      if t == Op(closer) then Ok((done, rest))
      else
        match ValueAt(t, rest, env, false)
        case Err(e) => Err(e)
        case Ok((v, after)) => ItemsAt(after, env, closer, done + [v])
  }

  /** The rest of a dict of which `done` has been read. */
  function EntriesAt(ts: seq<Token>, env: Env, done: map<Value, Value>): (r: Parse<map<Value, Value>>)
    ensures r.Ok? ==> |r.value.1| < |ts|
    decreases |ts|, 0
  {
    match FetchPastCommas(ts)
    case None => Err(OutOfTokens)
    case Some((t, rest)) =>
      if t == Op("}") then Ok((done, rest))
      else
        match ValueAt(t, rest, env, true)
        case Err(e) => Err(e)
        case Ok((key, afterKey)) =>
          match Fetch(afterKey)
          case None => Err(OutOfTokens)
          case Some((colon, afterColon)) =>
            if colon != Op(":") then Err(SyntaxError)
            else
              match NextValue(afterColon, env)
              case Err(e) => Err(e)
              case Ok((v, after)) =>
                match Stored(done, key, v)
                case Err(e) => Err(e)
                case Ok(more) => EntriesAt(after, env, more)
  }

  /** What a stream of assignments makes of the settings: the new settings, and the error that stopped it, if any. */
  function Loaded(ts: seq<Token>, env: Env, keywords: set<string>): (Env, Option<ParseError>)
    decreases |ts|
  {
    match Fetch(ts)
    case None => (env, Some(OutOfTokens))
    case Some((name, rest)) =>
      if name.text == "from" then (env, Some(ImportNotModelled))
      else if name.text in keywords then (env, Some(SyntaxError))
      else if name.kind == ENDMARKER then (env, None)
      else if name.kind != NAME then (env, Some(SyntaxError))
      else
        match Fetch(rest)
        case None => (env, Some(OutOfTokens))
        case Some((equals, afterEquals)) =>
          if equals != Op("=") then (env, Some(SyntaxError))
          else
            match NextValue(afterEquals, env)
            case Err(e) => (env, Some(e))
            case Ok((v, after)) =>
              if IsHidden(name.text) then (env, Some(KeyError(name.text)))
              else Loaded(after, env[name.text := v], keywords)
  }

  class PyConfigParser {
    const keywords: set<string>
    var tokens: seq<Token>
    var tok: Token
    var vars: Env

    constructor (keywords: set<string>)
      ensures this.keywords == keywords && vars == map[]
    {
      this.keywords := keywords;
      tokens, tok, vars := [], Token(OTHER, ""), map[];
    }

    /** The state after a step that was to leave `expected`: on success the rest of the stream is what it should be. */
    ghost predicate Agrees<T>(r: Result<T, ParseError>, expected: Parse<T>)
      reads this
    {
      match expected
      case Err(e) => r == Err(e)
      case Ok((v, rest)) => r == Ok(v) && tokens == rest
    }

    method GetToken() returns (ok: bool)
      modifies this`tokens, this`tok
      ensures ok == Fetch(old(tokens)).Some?
      ensures ok ==> Fetch(old(tokens)).value == (tok, tokens)
      decreases |tokens|
    {
      if tokens == [] {
        return false;
      }
      tok, tokens := tokens[0], tokens[1..];
      ok := true;
      if tok.kind in {COMMENT, INDENT, DEDENT} {
        ok := GetToken();
        if !ok {
          return;
        }
      }
      if tok.kind in {NL, NEWLINE} {
        ok := GetToken();
      }
    }

    method SkipCommas() returns (ok: bool)
      modifies this`tokens, this`tok
      ensures
        var expected := if old(tok) == Op(",") then FetchPastCommas(old(tokens)) else Some((old(tok), old(tokens)));
        ok == expected.Some? && (ok ==> expected.value == (tok, tokens))
    {
      while tok == Op(",")
        invariant
          (if tok == Op(",") then FetchPastCommas(tokens) else Some((tok, tokens))) ==
          (if old(tok) == Op(",") then FetchPastCommas(old(tokens)) else Some((old(tok), old(tokens))))
        decreases |tokens|
      {
        ok := GetToken();
        if !ok {
          return;
        }
      }
      ok := true;
    }

    method GetString() returns (r: Result<Value, ParseError>)
      requires tok.kind == STRING
      modifies this`tokens, this`tok
      ensures Agrees(r, ValueAt(old(tok), old(tokens), vars, false))
      decreases |tokens|, 1
    {
      var result := Unquoted(tok.text);
      if tokens == [] {
        return Err(OutOfTokens);
      }
      if tokens[0].text != "%" {
        return Ok(Str(result));
      }
      var ok := GetToken();
      if !ok {
        return Err(OutOfTokens);
      }
      if tok != Op("%") {
        return Err(SyntaxError);
      }
      var argument := GetNextValue();
      r := if argument.Err? then argument else Ok(Formatted(result, argument.value));
    }

    /** Reads a token and then the value starting there. */
    method GetNextValue() returns (r: Result<Value, ParseError>)
      modifies this`tokens, this`tok
      ensures Agrees(r, NextValue(old(tokens), vars))
      decreases |tokens|, 0
    {
      var ok := GetToken();
      if !ok {
        return Err(OutOfTokens);
      }
      r := GetValue(false);
    }

    /** Reads the value that starts at the current token. */
    method GetValue(basicTypesOnly: bool) returns (r: Result<Value, ParseError>)
      modifies this`tokens, this`tok
      ensures Agrees(r, ValueAt(old(tok), old(tokens), vars, basicTypesOnly))
      decreases |tokens|, 2
    {
      if tok == Op("-") {
        var ok := GetToken();
        if !ok {
          return Err(OutOfTokens);
        }
        if tok.kind != NUMBER {
          return Err(SyntaxError);
        }
        return Number(tok.text, true);
      }
      if tok.kind == NAME {
        return Lookup(vars, tok.text);
      }
      if tok.kind == NUMBER {
        return Number(tok.text, false);
      }
      if tok.kind == STRING {
        r := GetString();
        return;
      }
      if !basicTypesOnly {
        if tok == Op("{") {
          var entries := GetDict();
          return if entries.Err? then Err(entries.error) else Ok(Dict(entries.value));
        }
        if tok == Op("[") {
          var items := GetItems("]");
          return if items.Err? then Err(items.error) else Ok(List(items.value));
        }
        if tok == Op("(") {
          var items := GetItems(")");
          return if items.Err? then Err(items.error) else Ok(Tuple(items.value));
        }
      }
      r := Err(SyntaxError);
    }

    /** The loop shared by lists and tuples, which differ in the closing bracket only. */
    method GetItems(closer: string) returns (r: Result<seq<Value>, ParseError>)
      modifies this`tokens, this`tok
      ensures Agrees(r, ItemsAt(old(tokens), vars, closer, []))
      decreases |tokens|, 1
    {
      var result: seq<Value> := [];
      while true
        invariant |tokens| <= |old(tokens)|
        invariant ItemsAt(tokens, vars, closer, result) == ItemsAt(old(tokens), vars, closer, [])
        decreases |tokens|
      {
        var ok := GetToken();
        if ok {
          ok := SkipCommas();
        }
        if !ok {
          return Err(OutOfTokens);
        }
        if tok == Op(closer) {
          return Ok(result);
        }
        var value := GetValue(false);
        if value.Err? {
          return Err(value.error);
        }
        result := result + [value.value];
      }
    }

    method GetDict() returns (r: Result<map<Value, Value>, ParseError>)
      modifies this`tokens, this`tok
      ensures Agrees(r, EntriesAt(old(tokens), vars, map[]))
      decreases |tokens|, 1
    {
      var result: map<Value, Value> := map[];
      while true
        invariant |tokens| <= |old(tokens)|
        invariant EntriesAt(tokens, vars, result) == EntriesAt(old(tokens), vars, map[])
        decreases |tokens|
      {
        var ok := GetToken();
        if ok {
          ok := SkipCommas();
        }
        if !ok {
          return Err(OutOfTokens);
        }
        if tok == Op("}") {
          return Ok(result);
        }
        var key := GetValue(true);
        if key.Err? {
          return Err(key.error);
        }
        ok := GetToken();
        if !ok {
          return Err(OutOfTokens);
        }
        if tok != Op(":") {
          return Err(SyntaxError);
        }
        var value := GetNextValue();
        if value.Err? {
          return Err(value.error);
        }
        var stored := Stored(result, key.value, value.value);
        if stored.Err? {
          return Err(stored.error);
        }
        result := stored.value;
      }
    }

    /** Loads a non-empty input: each assignment is stored before the next one is read. */
    method Load(input: seq<Token>) returns (error: Option<ParseError>)
      modifies this
      ensures (vars, error) == Loaded(input, old(vars), keywords)
    {
      tokens := input;
      while true
        invariant Loaded(tokens, vars, keywords) == Loaded(input, old(vars), keywords)
        decreases |tokens|
      {
        var ok := GetToken();
        if !ok {
          return Some(OutOfTokens);
        }
        if tok.text == "from" {
          return Some(ImportNotModelled);
        }
        if tok.text in keywords {
          return Some(SyntaxError);
        }
        if tok.kind == ENDMARKER {
          return None;
        }
        if tok.kind != NAME {
          return Some(SyntaxError);
        }
        var key := tok.text;
        ok := GetToken();
        if !ok {
          return Some(OutOfTokens);
        }
        if tok != Op("=") {
          return Some(SyntaxError);
        }
        var value := GetNextValue();
        if value.Err? {
          return Some(value.error);
        }
        if IsHidden(key) {
          return Some(KeyError(key));
        }
        vars := vars[key := value.value];
      }
    }
  }
}
