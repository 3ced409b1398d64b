/**
 * `I18N::format`: parameters are substituted into a message either by the ICU
 * message formatter, when the message contains an argument of the form
 * `{name,` (the regular expression `{\s*[\w.]+\s*,`), or by a single `strtr`
 * pass that replaces each `{name}` token with its value.
 */
module MessageFormat {
  import opened Wrappers

  /** The message parameters: name to (stringified) value. */
  type Params = map<string, string>

  /**
   * The ICU `MessageFormatter::format(message, params, language)` capability;
   * `None` stands for its `false` result (formatting failed).
   */
  type IcuFormatter = (string, Params, string) -> Option<string>

  // ---------------------------------------------------------------------------
  // The ICU-argument test: preg_match('~{\s*[\w.]+\s*,~u', $message)
  // ---------------------------------------------------------------------------

  /** `\s`: space, tab, line feed, vertical tab, form feed, carriage return. */
  predicate IsSpace(c: char)
  {
    c == ' ' || c == '\t' || c == '\n' || c == '\U{B}' || c == '\U{C}' || c == '\r'
  }

  /** `[\w.]`: letters, digits, '_' and '.'. */
  predicate IsNameChar(c: char)
  {
    ('a' <= c <= 'z') || ('A' <= c <= 'Z') || ('0' <= c <= '9') || c == '_' || c == '.'
  }

  /**
   * The regular expression matches at `i`: a '{', spaces up to `a`, name
   * characters from `a` up to `b` (at least one), spaces from `b` up to `c`,
   * and a ',' at `c`.
   */
  ghost predicate ArgumentAt(s: string, i: int, a: int, b: int, c: int)
  {
    0 <= i < a < b <= c < |s| &&
    s[i] == '{' &&
    (forall k :: i < k < a ==> IsSpace(s[k])) &&
    (forall k :: a <= k < b ==> IsNameChar(s[k])) &&
    (forall k :: b <= k < c ==> IsSpace(s[k])) &&
    s[c] == ','
  }

  /** What the regular expression `{\s*[\w.]+\s*,` means: it matches somewhere in `s`. */
  ghost predicate HasIcuArgument(s: string)
  {
    exists i, a, b, c :: ArgumentAt(s, i, a, b, c)
  }

  /** The first index at or after `i` that is not a space. */
  function SkipSpaces(s: string, i: nat): (j: nat)
    requires i <= |s|
    ensures i <= j <= |s|
    ensures forall k :: i <= k < j ==> IsSpace(s[k])
    ensures j < |s| ==> !IsSpace(s[j])
    decreases |s| - i
  {
    if i < |s| && IsSpace(s[i]) then SkipSpaces(s, i + 1) else i
  }

  /** The first index at or after `i` that is not a name character. */
  function SkipNameChars(s: string, i: nat): (j: nat)
    requires i <= |s|
    ensures i <= j <= |s|
    ensures forall k :: i <= k < j ==> IsNameChar(s[k])
    ensures j < |s| ==> !IsNameChar(s[j])
    decreases |s| - i
  {
    if i < |s| && IsNameChar(s[i]) then SkipNameChars(s, i + 1) else i
  }

  /** The greedy scan of the pattern from a '{' at `i`. */
  predicate ArgumentStartsAt(s: string, i: nat)
    requires i < |s|
  {
    s[i] == '{' &&
    var a := SkipSpaces(s, i + 1);
    var b := SkipNameChars(s, a);
    a < b &&
    var c := SkipSpaces(s, b);
    c < |s| && s[c] == ','
  }

  predicate ContainsArgumentFrom(s: string, i: nat)
    decreases |s| - i
  {
    i < |s| && (ArgumentStartsAt(s, i) || ContainsArgumentFrom(s, i + 1))
  }

  /** The scanner that decides whether `format` hands a message to the ICU formatter. */
  predicate IsIcuTemplate(s: string)
  {
    ContainsArgumentFrom(s, 0)
  }

  lemma {:induction false} SkipSpacesStopsAt(s: string, i: nat, j: nat)
    requires i <= j <= |s|
    requires forall k :: i <= k < j ==> IsSpace(s[k])
    requires j < |s| ==> !IsSpace(s[j])
    ensures SkipSpaces(s, i) == j
    decreases j - i
  {
    if i < j {
      SkipSpacesStopsAt(s, i + 1, j);
    }
  }

  lemma {:induction false} SkipNameCharsStopsAt(s: string, i: nat, j: nat)
    requires i <= j <= |s|
    requires forall k :: i <= k < j ==> IsNameChar(s[k])
    requires j < |s| ==> !IsNameChar(s[j])
    ensures SkipNameChars(s, i) == j
    decreases j - i
  {
    if i < j {
      SkipNameCharsStopsAt(s, i + 1, j);
    }
  }

  lemma {:induction false} ScanFindsLater(s: string, i: nat, j: nat)
    requires i <= j < |s| && ArgumentStartsAt(s, j)
    ensures ContainsArgumentFrom(s, i)
    decreases j - i
  {
    if i < j {
      ScanFindsLater(s, i + 1, j);
    }
  }

  lemma {:induction false} ScanIsSound(s: string, i: nat)
    requires ContainsArgumentFrom(s, i)
    ensures HasIcuArgument(s)
    decreases |s| - i
  {
    if ArgumentStartsAt(s, i) {
      var a := SkipSpaces(s, i + 1);
      var b := SkipNameChars(s, a);
      var c := SkipSpaces(s, b);
      assert ArgumentAt(s, i, a, b, c);
    } else {
      ScanIsSound(s, i + 1);
    }
  }

  /** The scanner decides exactly the language of the regular expression. */
  lemma IcuTemplateMatchesRegex(s: string)
    ensures IsIcuTemplate(s) <==> HasIcuArgument(s)
  {
    if IsIcuTemplate(s) {
      ScanIsSound(s, 0);
    }
    if HasIcuArgument(s) {
      var i, a, b, c :| ArgumentAt(s, i, a, b, c);
      SkipSpacesStopsAt(s, i + 1, a);
      SkipNameCharsStopsAt(s, a, b);
      SkipSpacesStopsAt(s, b, c);
      assert ArgumentStartsAt(s, i);
      ScanFindsLater(s, 0, i);
    }
  }

  /** Without a ',' the message is never handed to the ICU formatter. */
  lemma NoCommaNoIcu(s: string)
    requires ',' !in s
    ensures !IsIcuTemplate(s)
  {
    IcuTemplateMatchesRegex(s);
  }

  // ---------------------------------------------------------------------------
  // Token substitution: strtr($message, ['{name}' => value, ...])
  // ---------------------------------------------------------------------------

  /** `'{' . $name . '}'`. */
  function Token(name: string): string
  {
    "{" + name + "}"
  }

  lemma TokenInjective()
    ensures forall n1, n2 {:trigger Token(n1), Token(n2)} :: Token(n1) == Token(n2) ==> n1 == n2
  {
    forall n1, n2 | Token(n1) == Token(n2)
      ensures n1 == n2
    {
      assert n1 == Token(n1)[1..|Token(n1)| - 1];
    }
  }

  /** The replacement table `$p` built by the loop in `format`: one token per parameter. */
  function TokenMap(params: Params): (p: map<string, string>)
    ensures forall name :: name in params ==> Token(name) in p && p[Token(name)] == params[name]
    ensures forall k :: k in p ==> exists name :: name in params && k == Token(name)
  {
    TokenInjective();
    map name | name in params :: Token(name) := params[name]
  }

  /** The `foreach` of `format` that builds `$p`, one parameter at a time. */
  method BuildTokenMap(params: Params) returns (p: map<string, string>)
    ensures p == TokenMap(params)
  {
    p := map[];
    var rest := params.Keys;
    while rest != {}
      invariant rest <= params.Keys
      invariant forall name :: name in params && name !in rest ==> Token(name) in p && p[Token(name)] == params[name]
      invariant forall k :: k in p ==> exists name :: name in params && name !in rest && k == Token(name)
      decreases rest
    {
      var name :| name in rest;
      TokenInjective();
      p := p[Token(name) := params[name]];
      rest := rest - {name};
    }
    assert p.Keys == TokenMap(params).Keys;
  }

  /**
   * The length of the longest non-empty key of `p` that `s` starts with,
   * trying the lengths from `n` down; 0 when there is none.
   */
  function LongestKeyLength(s: string, p: map<string, string>, n: nat): (len: nat)
    requires n <= |s|
    ensures len <= n
    ensures len > 0 ==> s[..len] in p
    ensures forall m :: len < m <= n ==> s[..m] !in p
  {
    if n == 0 then 0
    else if s[..n] in p then n
    else LongestKeyLength(s, p, n - 1)
  }

  /**
   * `strtr($s, $p)`: scanning left to right, the longest key starting at the
   * current position is replaced by its value and the scan resumes after the
   * key, so a value is never scanned again; a position where no key starts
   * is copied.
   */
  function Strtr(s: string, p: map<string, string>): (r: string)
    ensures (forall k :: k in p ==> k != [] && k[0] == '{') && '{' !in s ==> r == s
    decreases |s|
  {
    if s == [] then []
    else
      var len := LongestKeyLength(s, p, |s|);
      if len > 0 then p[s[..len]] + Strtr(s[len..], p)
      else
        assert s == [s[0]] + s[1..];
        [s[0]] + Strtr(s[1..], p)
  }

  /** No token starts at a character other than '{'. */
  lemma NoTokenAt(s: string, params: Params)
    requires s != [] && s[0] != '{'
    ensures forall m :: 0 < m <= |s| ==> s[..m] !in TokenMap(params)
  {
  }

  /** Text before the first '{' passes through the substitution unchanged. */
  lemma {:induction false} StrtrPlainPrefix(x: string, y: string, params: Params)
    requires '{' !in x
    ensures Strtr(x + y, TokenMap(params)) == x + Strtr(y, TokenMap(params))
  {
    if x != [] {
      var s, p := x + y, TokenMap(params);
      assert s[0] == x[0] && x[0] in x;
      NoTokenAt(s, params);
      assert LongestKeyLength(s, p, |s|) == 0;
      assert s[1..] == x[1..] + y;
      StrtrPlainPrefix(x[1..], y, params);
      calc {
        Strtr(s, p);
        [s[0]] + Strtr(s[1..], p);
        [x[0]] + (x[1..] + Strtr(y, p));
        ([x[0]] + x[1..]) + Strtr(y, p);
        { assert [x[0]] + x[1..] == x; }
        x + Strtr(y, p);
      }
    } else {
      assert x + y == y;
    }
  }

  /** A message without '{' is left unchanged by the substitution. */
  lemma StrtrWithoutBraces(s: string, params: Params)
    requires '{' !in s
    ensures Strtr(s, TokenMap(params)) == s
  {
    StrtrPlainPrefix(s, [], params);
    assert s + [] == s;
  }

  /**
   * A token is replaced by its value verbatim: tokens inside the value are
   * not substituted again.
   */
  lemma StrtrToken(name: string, params: Params)
    requires name in params
    ensures Strtr(Token(name), TokenMap(params)) == params[name]
  {
    var s := Token(name);
    assert s[..|s|] == s;
    assert s[|s|..] == [];
  }

  /**
   * A token followed by more text: the token's value is emitted verbatim and
   * the scan resumes right after the token, so neither the value nor a
   * token it forms with the text after it is substituted again. With
   * `StrtrPlainPrefix` this gives one-pass substitution for any sequence of
   * plain text and tokens. (No parameter name holds '}', so no longer key
   * can start at the token.)
   */
  lemma StrtrTokenThen(name: string, y: string, params: Params)
    requires name in params
    requires forall n :: n in params ==> '}' !in n
    ensures Strtr(Token(name) + y, TokenMap(params)) == params[name] + Strtr(y, TokenMap(params))
  {
    var t, s, p := Token(name), Token(name) + y, TokenMap(params);
    assert s[..|t|] == t;
    forall m, n | |t| < m <= |s| && n in params
      ensures s[..m] != Token(n)
    {
      if |Token(n)| == m {
        assert n[|t| - 2] in n;
        assert Token(n)[|t| - 1] == n[|t| - 2] != '}';
        assert s[..m][|t| - 1] == t[|t| - 1] == '}';
      }
    }
    assert LongestKeyLength(s, p, |s|) == |t|;
    assert s[|t|..] == y;
  }

  // ---------------------------------------------------------------------------
  // format
  // ---------------------------------------------------------------------------

  /**
   * `I18N::format($message, $params, $language)`. It never fails: a
   * formatter failure yields the raw message.
   */
  function Format(message: string, params: Params, language: string, icu: IcuFormatter): (r: string)
    ensures params == map[] ==> r == message
    ensures params != map[] && HasIcuArgument(message) ==>
              r == (match icu(message, params, language) case Some(formatted) => formatted case None => message)
    ensures params != map[] && !HasIcuArgument(message) ==> r == Strtr(message, TokenMap(params))
  {
    IcuTemplateMatchesRegex(message);
    if params == map[] then message
    else if IsIcuTemplate(message) then
      match icu(message, params, language)
      case Some(formatted) => formatted
      case None => message
    else Strtr(message, TokenMap(params))
  }

  /** A message handed to a formatter that rejects it comes back unchanged. */
  lemma FormatFallsBackToMessage(message: string, params: Params, language: string, icu: IcuFormatter)
    requires params != map[] && HasIcuArgument(message)
    requires icu(message, params, language) == None
    ensures Format(message, params, language, icu) == message
  {
  }

  /**
   * Outside ICU templates a message ending in a token becomes its text followed
   * by the parameter's value: `format("Hello {name}", ['name' => 'Ana'])` is
   * "Hello Ana", whatever the formatter.
   */
  lemma FormatSubstitutesToken(text: string, name: string, value: string, language: string, icu: IcuFormatter)
    requires '{' !in text && ',' !in text && ',' !in name
    ensures Format(text + Token(name), map[name := value], language, icu) == text + value
  {
    var params, msg := map[name := value], text + Token(name);
    assert ',' !in msg by {
      assert msg == text + "{" + name + "}";
    }
    NoCommaNoIcu(msg);
    IcuTemplateMatchesRegex(msg);
    StrtrPlainPrefix(text, Token(name), params);
    StrtrToken(name, params);
  }

  /**
   * One pass only: a message that is one token becomes that parameter's
   * value verbatim, whatever tokens the value contains. With `a` mapped to
   * "{b}" and `b` to "x", "{a}" becomes "{b}", not "x".
   */
  lemma FormatDoesNotRescan(name: string, params: Params, language: string, icu: IcuFormatter)
    requires name in params && ',' !in name
    ensures Format(Token(name), params, language, icu) == params[name]
  {
    var msg := Token(name);
    assert ',' !in msg by {
      assert msg == "{" + name + "}";
    }
    NoCommaNoIcu(msg);
    IcuTemplateMatchesRegex(msg);
    StrtrToken(name, params);
  }
}
