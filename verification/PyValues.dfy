/** Tokens and values of the Python-like configuration syntax. */
module PyValues {
  import opened Prelude

  datatype Kind = NAME | NUMBER | STRING | OP | COMMENT | INDENT | DEDENT | NL | NEWLINE | ENDMARKER | OTHER

  datatype Token = Token(kind: Kind, text: string)

  datatype ParseError =
    | SyntaxError
    | KeyError(name: string)
    | ValueError(text: string)
    | Unhashable
    | OutOfTokens
    | ImportNotModelled

  /**
   A configuration value. A float keeps its source text, and a formatted string keeps its format and its argument:
   neither rounding nor `%` formatting is interpreted.
   */
  datatype Value =
    | NoneValue
    | Bool(b: bool)
    | Int(n: int)
    | Float(text: string, negated: bool)
    | Str(s: string)
    | List(items: seq<Value>)
    | Tuple(elements: seq<Value>)
    | Dict(entries: map<Value, Value>)
    | Formatted(format: string, argument: Value)

  type Env = map<string, Value>

  function Op(text: string): Token {
    Token(OP, text)
  }

  /** Tokens that the parser never sees: comments, indentation and line ends. */
  predicate IsNoise(t: Token) {
    t.kind in {COMMENT, INDENT, DEDENT, NL, NEWLINE}
  }

  predicate IsDigits(s: string) {
    s != "" && forall i :: 0 <= i < |s| ==> '0' <= s[i] <= '9'
  }

  function DigitsValue(s: string): nat
    requires forall i :: 0 <= i < |s| ==> '0' <= s[i] <= '9'
  {
    if s == "" then 0 else 10 * DigitsValue(s[..|s| - 1]) + (s[|s| - 1] as int - '0' as int)
  }

  function Number(text: string, negative: bool): Result<Value, ParseError> {
    if '.' in text then Ok(Float(text, negative))
    else if IsDigits(text) then Ok(Int((if negative then -1 else 1) * DigitsValue(text)))
    else Err(ValueError(text))
  }

  /** The literal without its first and last character; escapes are not interpreted. */
  function Unquoted(literal: string): string {
    if |literal| < 2 then "" else literal[1..|literal| - 1]
  }

  /** A name read from the dict of settings: names with a leading underscore are hidden. */
  function Lookup(env: Env, name: string): Result<Value, ParseError> {
    if name == "False" then Ok(Bool(false))
    else if name == "True" then Ok(Bool(true))
    else if name == "None" then Ok(NoneValue)
    else if IsHidden(name) || name !in env then Err(KeyError(name))
    else Ok(env[name])
  }

  predicate IsHidden(name: string) {
    name != "" && name[0] == '_'
  }

  predicate Hashable(v: Value) {
    match v
    case List(_) => false
    case Dict(_) => false
    case Tuple(vs) => forall i :: 0 <= i < |vs| ==> Hashable(vs[i])
    case _ => true
  }

  /** Python compares True with 1 and False with 0 as equal keys. */
  function DictKey(v: Value): Value {
    match v
    case Bool(b) => Int(if b then 1 else 0)
    case Tuple(vs) => Tuple(seq(|vs|, i requires 0 <= i < |vs| => DictKey(vs[i])))
    case _ => v
  }

  function Stored(d: map<Value, Value>, key: Value, v: Value): Result<map<Value, Value>, ParseError> {
    if Hashable(key) then Ok(d[DictKey(key) := v]) else Err(Unhashable)
  }
}
