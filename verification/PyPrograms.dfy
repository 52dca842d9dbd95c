/** Whole configuration files: sequences of assignments, run one after the other. */
module PyPrograms {
  import opened Prelude
  import opened PyValues
  import opened PyConfig
  import opened PySyntax

  datatype Assignment = Assignment(gap: Gap, name: string, beforeEquals: Gap, afterEquals: Gap, value: Expr)

  predicate IsAssignable(name: string, keywords: set<string>) {
    name != "from" && name != "%" && name !in keywords
  }

  predicate ProgramWellFormed(p: seq<Assignment>, keywords: set<string>) {
    forall i :: 0 <= i < |p| ==>
      && IsNoiseGap(p[i].gap) && IsNoiseGap(p[i].beforeEquals) && IsNoiseGap(p[i].afterEquals)
      && IsAssignable(p[i].name, keywords) && WellFormed(p[i].value)
  }

  /** The tokens of the assignments, and then `after`. */
  function RenderProgram(p: seq<Assignment>, after: seq<Token>): seq<Token> {
    if p == [] then after
    else
      var a := p[0];
      a.gap + ([Token(NAME, a.name)] +
        (a.beforeEquals + ([Op("=")] + (a.afterEquals + Render(a.value, RenderProgram(p[1..], after))))))
  }

  /** Each right-hand side is evaluated in the settings left by the assignments before it; an error stops the run. */
  function Run(p: seq<Assignment>, env: Env): (Env, Option<ParseError>) {
    if p == [] then (env, None)
    else
      match Eval(p[0].value, env)
      case Err(e) => (env, Some(e))
      case Ok(v) =>
        if IsHidden(p[0].name) then (env, Some(KeyError(p[0].name))) else Run(p[1..], env[p[0].name := v])
  }

  lemma ProgramFollows(p: seq<Assignment>, keywords: set<string>, after: seq<Token>)
    requires ProgramWellFormed(p, keywords) && Follows(after)
    ensures Follows(RenderProgram(p, after))
  {
    if p != [] {
      LayoutFollows(p[0].gap, Token(NAME, p[0].name), RenderProgram(p, after)[|p[0].gap| + 1..]);
    }
  }

  /**
   Loading the rendering of a program runs the program and then loads what follows it, in the settings it left;
   if an assignment fails, loading stops there with its error and the settings of the assignments before it.
   */
  lemma {:induction false} LoadsProgram(p: seq<Assignment>, env: Env, keywords: set<string>, after: seq<Token>)
    requires ProgramWellFormed(p, keywords) && Follows(after)
    ensures
      Loaded(RenderProgram(p, after), env, keywords) ==
      var (left, error) := Run(p, env);
      if error.Some? then (left, error) else Loaded(after, left, keywords)
  {
    if p != [] {
      var a := p[0];
      var tail := RenderProgram(p[1..], after);
      var equals := a.afterEquals + Render(a.value, tail);
      FetchSkips(a.gap, Token(NAME, a.name), a.beforeEquals + ([Op("=")] + equals));
      FetchSkips(a.beforeEquals, Op("="), equals);
      ProgramFollows(p[1..], keywords, after);
      ParsesRendering(a.afterEquals, a.value, env, tail);
      if Eval(a.value, env).Ok? && !IsHidden(a.name) {
        LoadsProgram(p[1..], env[a.name := Eval(a.value, env).value], keywords, after);
      }
    }
  }

  /** The assignment at the head of a stream that starts with one. */
  lemma ReadAssignment(ts: seq<Token>, env: Env, keywords: set<string>) returns (a: Assignment, after: seq<Token>)
    requires AllTokenized(ts)
    requires Fetch(ts).Some?
    requires
      var (name, rest) := Fetch(ts).value;
      && name.kind == NAME && name.text != "from" && name.text !in keywords
      && Fetch(rest).Some? && Fetch(rest).value.0 == Op("=") && NextValue(Fetch(rest).value.1, env).Ok?
    ensures ProgramWellFormed([a], keywords) && a.name == Fetch(ts).value.0.text && AllTokenized(after)
    ensures ts == RenderProgram([a], after)
    ensures NextValue(Fetch(Fetch(ts).value.1).value.1, env) == At(Eval(a.value, env), after) && |after| < |ts|
  {
    var gap := ReadGap(ts);
    var (name, rest) := Fetch(ts).value;
    var g1 := ReadGap(rest);
    var afterEquals := Fetch(rest).value.1;
    var g2, value := ReadValue(afterEquals, env);
    after := NextValue(afterEquals, env).value.1;
    a := Assignment(gap, name.text, g1, g2, value);
    assert RenderProgram([a][1..], after) == after;
  }

  lemma Prepend(a: Assignment, more: seq<Assignment>, env: Env, keywords: set<string>, after: seq<Token>)
    requires ProgramWellFormed([a], keywords) && ProgramWellFormed(more, keywords)
    ensures ProgramWellFormed([a] + more, keywords)
    ensures RenderProgram([a] + more, after) == RenderProgram([a], RenderProgram(more, after))
    ensures Eval(a.value, env).Ok? && !IsHidden(a.name) ==>
      Run([a] + more, env) == Run(more, env[a.name := Eval(a.value, env).value])
  {
    assert ([a] + more)[1..] == more;
    assert [a][1..] == [];
  }

  /**
   Loading keeps exactly the assignments before the one that fails: the stream starts with a program that runs to the
   settings that are kept, and the error is the one met in the tokens after it. Without an error, those tokens are the
   end marker.
   */
  lemma {:induction false} LoadKeepsPrefix(ts: seq<Token>, env: Env, keywords: set<string>)
    returns (p: seq<Assignment>, after: seq<Token>)
    requires AllTokenized(ts)
    ensures ProgramWellFormed(p, keywords) && ts == RenderProgram(p, after)
    ensures
      var (left, error) := Loaded(ts, env, keywords);
      && Run(p, env) == (left, None) && Loaded(after, left, keywords) == (left, error)
      && (error.None? ==> Fetch(after).Some? && Fetch(after).value.0.kind == ENDMARKER)
    decreases |ts|
  {
    p, after := [], ts;
    if Fetch(ts).Some? {
      var (name, rest) := Fetch(ts).value;
      if name.kind == NAME && name.text != "from" && name.text !in keywords &&
         Fetch(rest).Some? && Fetch(rest).value.0 == Op("=") && NextValue(Fetch(rest).value.1, env).Ok? &&
         !IsHidden(name.text)
      {
        var a, tail := ReadAssignment(ts, env, keywords);
        var next := env[a.name := Eval(a.value, env).value];
        var more, end := LoadKeepsPrefix(tail, next, keywords);
        p, after := [a] + more, end;
        Prepend(a, more, env, keywords, end);
        assert RenderProgram([a], tail) == ts;
      }
    }
  }

  /** What begins no assignment stops the loading with a syntax error, unless it is the end. */
  lemma OtherwiseSyntaxError(gap: Gap, t: Token, after: seq<Token>, env: Env, keywords: set<string>)
    requires IsNoiseGap(gap) && !IsNoise(t) && t.text != "from"
    requires t.text in keywords || t.kind !in {NAME, ENDMARKER}
    ensures Loaded(gap + ([t] + after), env, keywords) == (env, Some(SyntaxError))
  {
    FetchSkips(gap, t, after);
  }

  /** And so does a name that no equals sign follows. */
  lemma NoEqualsIsSyntaxError(
      gap: Gap, name: string, g1: Gap, t: Token, after: seq<Token>, env: Env, keywords: set<string>)
    requires IsNoiseGap(gap) && IsNoiseGap(g1) && IsAssignable(name, keywords) && !IsNoise(t) && t != Op("=")
    ensures Loaded(gap + ([Token(NAME, name)] + (g1 + ([t] + after))), env, keywords) == (env, Some(SyntaxError))
  {
    FetchSkips(gap, Token(NAME, name), g1 + ([t] + after));
    FetchSkips(g1, t, after);
  }

  /** The end marker ends the loading, and leaves whatever comes after it unread. */
  lemma EndIsNoError(gap: Gap, t: Token, after: seq<Token>, env: Env, keywords: set<string>)
    requires IsNoiseGap(gap) && t.kind == ENDMARKER && t.text == "" && "" !in keywords
    ensures Loaded(gap + ([t] + after), env, keywords) == (env, None)
  {
    FetchSkips(gap, t, after);
  }

  /** The settings before assignment `i`. */
  function Before(p: seq<Assignment>, i: nat, env: Env): Env
    requires i <= |p|
  {
    Run(p[..i], env).0
  }

  /** Assignment `i` is the last one to `name`. */
  ghost predicate IsLast(p: seq<Assignment>, i: nat, name: string) {
    i < |p| && p[i].name == name && forall j :: i < j < |p| ==> p[j].name != name
  }

  ghost predicate IsAssigned(p: seq<Assignment>, name: string) {
    exists i :: 0 <= i < |p| && p[i].name == name
  }

  /** A program that runs without error leaves the names that it does not assign alone. */
  lemma {:induction false} UnassignedIsKept(p: seq<Assignment>, env: Env, name: string)
    requires Run(p, env).1.None? && !IsAssigned(p, name)
    ensures name in Run(p, env).0 <==> name in env
    ensures name in env ==> Run(p, env).0[name] == env[name]
    decreases |p|
  {
    if p != [] {
      assert p[0].name != name;
      assert forall i :: 0 <= i < |p[1..]| ==> p[1..][i] == p[i + 1];
      UnassignedIsKept(p[1..], env[p[0].name := Eval(p[0].value, env).value], name);
    }
  }

  /**
   A program that runs without error leaves each name with the value of the last assignment to it, evaluated in the
   settings just before that assignment. Applied to a prefix of a program, this says what the names on the next
   right-hand side read.
   */
  lemma {:induction false} LastAssignmentWins(p: seq<Assignment>, env: Env, i: nat, name: string)
    requires Run(p, env).1.None? && IsLast(p, i, name)
    ensures Run(p[..i], env).1.None? && name in Run(p, env).0
    ensures Eval(p[i].value, Before(p, i, env)) == Ok(Run(p, env).0[name])
    decreases |p|
  {
    var next := env[p[0].name := Eval(p[0].value, env).value];
    if i == 0 {
      assert forall j :: 0 <= j < |p[1..]| ==> p[1..][j] == p[j + 1];
      assert !IsAssigned(p[1..], name);
      UnassignedIsKept(p[1..], next, name);
      assert p[..0] == [];
    } else {
      assert p[..i][1..] == p[1..][..i - 1];
      LastAssignmentWins(p[1..], next, i - 1, name);
    }
  }

  /* The stream never runs dry before its end marker */

  predicate HasEnd(ts: seq<Token>) {
    exists i :: 0 <= i < |ts| && ts[i].kind == ENDMARKER
  }

  lemma EndBehindFirst(ts: seq<Token>)
    requires HasEnd(ts) && ts[0].kind != ENDMARKER
    ensures HasEnd(ts[1..])
  {
    var i :| 0 <= i < |ts| && ts[i].kind == ENDMARKER;
    assert ts[1..][i - 1] == ts[i];
  }

  lemma {:induction false} FetchFindsEnd(ts: seq<Token>)
    requires HasEnd(ts)
    ensures Fetch(ts).Some? && (Fetch(ts).value.0.kind != ENDMARKER ==> HasEnd(Fetch(ts).value.1))
  {
    if ts[0].kind != ENDMARKER {
      EndBehindFirst(ts);
      if IsNoise(ts[0]) {
        FetchFindsEnd(ts[1..]);
      }
    }
  }

  lemma {:induction false} FetchPastCommasFindsEnd(ts: seq<Token>)
    requires HasEnd(ts)
    ensures
      FetchPastCommas(ts).Some? &&
      (FetchPastCommas(ts).value.0.kind != ENDMARKER ==> HasEnd(FetchPastCommas(ts).value.1))
    decreases |ts|
  {
    FetchFindsEnd(ts);
    var (t, rest) := Fetch(ts).value;
    if t == Op(",") {
      FetchPastCommasFindsEnd(rest);
    }
  }

  ghost predicate StaysInside<T>(r: Parse<T>) {
    r != Err(OutOfTokens) && (r.Ok? ==> HasEnd(r.value.1))
  }

  lemma {:induction false} ValueStaysInside(t: Token, ts: seq<Token>, env: Env, basic: bool)
    requires HasEnd(ts)
    ensures StaysInside(ValueAt(t, ts, env, basic))
    decreases |ts|, 1
  {
    FetchFindsEnd(ts);
    var (u, rest) := Fetch(ts).value;
    if t.kind == STRING && u == Op("%") {
      NextStaysInside(rest, env);
    } else if t == Op("{") {
      EntriesStayInside(ts, env, map[]);
    } else if t == Op("[") {
      ItemsStayInside(ts, env, "]", []);
    } else if t == Op("(") {
      ItemsStayInside(ts, env, ")", []);
    }
  }

  lemma {:induction false} NextStaysInside(ts: seq<Token>, env: Env)
    requires HasEnd(ts)
    ensures StaysInside(NextValue(ts, env))
    decreases |ts|, 0
  {
    FetchFindsEnd(ts);
    var (t, rest) := Fetch(ts).value;
    if t.kind != ENDMARKER {
      ValueStaysInside(t, rest, env, false);
    }
  }

  lemma {:induction false} ItemsStayInside(ts: seq<Token>, env: Env, closer: string, done: seq<Value>)
    requires HasEnd(ts)
    ensures StaysInside(ItemsAt(ts, env, closer, done))
    decreases |ts|, 0
  {
    FetchPastCommasFindsEnd(ts);
    var (t, rest) := FetchPastCommas(ts).value;
    if t.kind != ENDMARKER {
      ValueStaysInside(t, rest, env, false);
      var r := ValueAt(t, rest, env, false);
      if r.Ok? {
        ItemsStayInside(r.value.1, env, closer, done + [r.value.0]);
      }
    }
  }

  lemma {:induction false} EntriesStayInside(ts: seq<Token>, env: Env, done: map<Value, Value>)
    requires HasEnd(ts)
    ensures StaysInside(EntriesAt(ts, env, done))
    decreases |ts|, 0
  {
    FetchPastCommasFindsEnd(ts);
    var (t, rest) := FetchPastCommas(ts).value;
    if t.kind != ENDMARKER {
      ValueStaysInside(t, rest, env, true);
      var key := ValueAt(t, rest, env, true);
      if key.Ok? {
        FetchFindsEnd(key.value.1);
        var (colon, afterColon) := Fetch(key.value.1).value;
        if colon == Op(":") {
          NextStaysInside(afterColon, env);
          var v := NextValue(afterColon, env);
          if v.Ok? && Stored(done, key.value.0, v.value.0).Ok? {
            EntriesStayInside(v.value.1, env, Stored(done, key.value.0, v.value.0).value);
          }
        }
      }
    }
  }

  /** Loading a stream with an end marker never asks for a token that is not there, whatever the errors in it. */
  lemma {:induction false} LoadNeverStarves(ts: seq<Token>, env: Env, keywords: set<string>)
    requires HasEnd(ts)
    ensures Loaded(ts, env, keywords).1 != Some(OutOfTokens)
    decreases |ts|
  {
    FetchFindsEnd(ts);
    var (name, rest) := Fetch(ts).value;
    if name.kind == NAME {
      FetchFindsEnd(rest);
      var (equals, afterEquals) := Fetch(rest).value;
      if equals == Op("=") {
        NextStaysInside(afterEquals, env);
        var v := NextValue(afterEquals, env);
        if v.Ok? {
          LoadNeverStarves(v.value.1, env[name.text := v.value.0], keywords);
        }
      }
    }
  }
}
