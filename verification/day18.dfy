/** Day 18, Operation Order: each line is an arithmetic expression over
    non-negative integers with `+`, `*` and parentheses. A lexer turns the
    line into tokens, the shunting-yard algorithm turns the tokens into
    reverse Polish notation (RPN), and a stack machine evaluates the RPN.
    Part 1 gives `+` and `*` the same precedence (left to right); part 2
    lets `+` bind tighter than `*`.

    Values are unbounded integers: the 64-bit `long` arithmetic of the
    source is not modelled. */
module Day18 {
  import opened Wrappers
  import opened Strings
  import Seqs

  // ---------------------------------------------------------------- tokens

  datatype TokenKind = Empty | Operator | Number | Deliminater

  datatype Token = Token(kind: TokenKind, value: string)

  const Plus := Token(Operator, "+")
  const Times := Token(Operator, "*")

  lemma OperatorValues()
    ensures Plus.value != Times.value && Plus.value != "(" && Times.value != "("
    ensures Plus.kind == Operator && Times.kind == Operator
  {
    assert Plus.value[0] != Times.value[0] && Plus.value[0] != "("[0] && Times.value[0] != "("[0];
  }

  predicate IsOperatorChar(c: char) { c == '+' || c == '-' || c == '*' }

  predicate IsParen(c: char) { c == '(' || c == ')' }

  /** A character that starts a token. */
  predicate StartsToken(c: char) { IsDigit(c) || IsOperatorChar(c) || IsParen(c) }

  /** The shape of every token the lexer emits. */
  predicate WellFormed(t: Token) {
    match t.kind
    case Number => |t.value| >= 1 && AllDigits(t.value)
    case Operator => |t.value| == 1 && IsOperatorChar(t.value[0])
    case Deliminater => |t.value| == 1 && IsParen(t.value[0])
    case Empty => false
  }

  // ---------------------------------------------------------------- the lexer

  function LeadingWhiteSpace(s: string): (n: nat)
    ensures n <= |s|
    ensures forall k :: 0 <= k < n ==> IsWhiteSpace(s[k])
    ensures n < |s| ==> !IsWhiteSpace(s[n])
  {
    if |s| == 0 || !IsWhiteSpace(s[0]) then 0 else 1 + LeadingWhiteSpace(s[1..])
  }

  function DigitRun(s: string): (n: nat)
    ensures n <= |s|
    ensures forall k :: 0 <= k < n ==> IsDigit(s[k])
    ensures n < |s| ==> !IsDigit(s[n])
  {
    if |s| == 0 || !IsDigit(s[0]) then 0 else 1 + DigitRun(s[1..])
  }

  /** The token at the front of `u`, which starts with no white space, and
      the rest after it. */
  function TokenAt(u: string): (r: Result<Option<(Token, string)>>)
    requires |u| == 0 || !IsWhiteSpace(u[0])
    ensures r == Ok(None) <==> |u| == 0 || u[0] == '\0'
    ensures r.Err? <==> |u| > 0 && u[0] != '\0' && !StartsToken(u[0])
    ensures r.Ok? && r.value.Some? ==>
      var (t, rest) := r.value.value;
      && WellFormed(t)
      && u == t.value + rest
      && (t.kind == Number ==> |rest| == 0 || !IsDigit(rest[0]))
  {
    if |u| == 0 || u[0] == '\0' then Ok(None)
    else if IsDigit(u[0]) then
      var n := DigitRun(u);
      assert u == u[..n] + u[n..];
      Ok(Some((Token(Number, u[..n]), u[n..])))
    else if IsOperatorChar(u[0]) then
      assert u == [u[0]] + u[1..];
      Ok(Some((Token(Operator, [u[0]]), u[1..])))
    else if IsParen(u[0]) then
      assert u == [u[0]] + u[1..];
      Ok(Some((Token(Deliminater, [u[0]]), u[1..])))
    else Err("the lexer does not terminate")
  }

  /** `Lexer.GenerateToken` on the unread rest `s` of the line: white space
      is skipped; a maximal run of digits is a number; `+`, `-`, `*` are
      operators and `(`, `)` delimiters, one character each. The end of the
      line, or a `\0` character, ends the tokens. On any other character
      the source loops forever without reading further, modelled as an
      error. The result pairs the token with the rest of the line after it. */
  function NextToken(s: string): (r: Result<Option<(Token, string)>>)
    ensures var w := LeadingWhiteSpace(s);
      && (r == Ok(None) <==> w == |s| || s[w] == '\0')
      && (r.Err? <==> w < |s| && s[w] != '\0' && !StartsToken(s[w]))
    ensures r.Ok? && r.value.Some? ==>
      var (t, rest) := r.value.value;
      var w := LeadingWhiteSpace(s);
      && WellFormed(t)
      && s == s[..w] + t.value + rest
      && (t.kind == Number ==> |rest| == 0 || !IsDigit(rest[0]))
  {
    var w := LeadingWhiteSpace(s);
    var r := TokenAt(s[w..]);
    if r.Ok? && r.value.Some? then
      SplitAround(s, w, r.value.value.0.value, r.value.value.1);
      r
    else r
  }

  lemma SplitAround(s: string, w: nat, t: string, rest: string)
    requires w <= |s| && s[w..] == t + rest
    ensures s == s[..w] + t + rest
  {
    assert s == s[..w] + s[w..];
  }

  /** `GenerateAllTokens`: `GenerateToken` until it returns no token. */
  function Lex(s: string): (r: Result<seq<Token>>)
    ensures r.Ok? ==> forall k :: 0 <= k < |r.value| ==> WellFormed(r.value[k])
    decreases |s|
  {
    var next :- NextToken(s);
    match next
    case None => Ok([])
    case Some((t, rest)) =>
      var ts :- Lex(rest);
      Ok([t] + ts)
  }

  /** The line up to its first `\0` character: the part the lexer reads. */
  function Live(s: string): (r: string)
    ensures |r| <= |s| && r == s[..|r|] && '\0' !in r
    ensures |r| < |s| ==> s[|r|] == '\0'
  {
    if |s| == 0 || s[0] == '\0' then [] else [s[0]] + Live(s[1..])
  }

  /** The line without its white space. */
  function Squeeze(s: string): (r: string) {
    if |s| == 0 then [] else (if IsWhiteSpace(s[0]) then [] else [s[0]]) + Squeeze(s[1..])
  }

  /** The text of the tokens, one after the other. */
  function Values(ts: seq<Token>): (r: string) {
    if |ts| == 0 then [] else ts[0].value + Values(ts[1..])
  }

  lemma {:induction false} SqueezeAppend(a: string, b: string)
    ensures Squeeze(a + b) == Squeeze(a) + Squeeze(b)
  {
    if |a| == 0 {
      assert a + b == b;
    } else {
      assert (a + b)[1..] == a[1..] + b;
      SqueezeAppend(a[1..], b);
    }
  }

  lemma {:induction false} SqueezeBlank(s: string)
    requires forall k :: 0 <= k < |s| ==> IsWhiteSpace(s[k])
    ensures Squeeze(s) == []
  {
    if |s| > 0 {
      SqueezeBlank(s[1..]);
    }
  }

  lemma {:induction false} SqueezeSolid(s: string)
    requires forall k :: 0 <= k < |s| ==> !IsWhiteSpace(s[k])
    ensures Squeeze(s) == s
  {
    if |s| > 0 {
      SqueezeSolid(s[1..]);
      assert s == [s[0]] + s[1..];
    }
  }

  lemma {:induction false} LiveAppend(a: string, b: string)
    requires '\0' !in a
    ensures Live(a + b) == a + Live(b)
  {
    if |a| == 0 {
      assert a + b == b;
    } else {
      assert (a + b)[1..] == a[1..] + b;
      LiveAppend(a[1..], b);
    }
  }

  /** The characters the lexer reads are all white space or token starts. */
  predicate Readable(live: string) {
    forall k :: 0 <= k < |live| ==> IsWhiteSpace(live[k]) || StartsToken(live[k])
  }

  lemma LiveAfterBlank(s: string)
    ensures var w := LeadingWhiteSpace(s);
      && Live(s) == s[..w] + Live(s[w..])
      && Squeeze(s[..w]) == []
      && Readable(s[..w])
  {
    var w := LeadingWhiteSpace(s);
    var ws := s[..w];
    assert forall k :: 0 <= k < w ==> IsWhiteSpace(ws[k]);
    assert '\0' !in ws;
    assert s == ws + s[w..];
    LiveAppend(ws, s[w..]);
    SqueezeBlank(ws);
  }

  lemma ReadableAppend(a: string, b: string)
    ensures Readable(a + b) <==> Readable(a) && Readable(b)
  {
    if Readable(a) && Readable(b) {
      forall k | 0 <= k < |a + b|
        ensures IsWhiteSpace((a + b)[k]) || StartsToken((a + b)[k])
      {
        if k >= |a| {
          assert (a + b)[k] == b[k - |a|];
        }
      }
    }
    if Readable(a + b) {
      forall k | 0 <= k < |a|
        ensures IsWhiteSpace(a[k]) || StartsToken(a[k])
      {
        assert (a + b)[k] == a[k];
      }
      forall k | 0 <= k < |b|
        ensures IsWhiteSpace(b[k]) || StartsToken(b[k])
      {
        assert (a + b)[|a| + k] == b[k];
      }
    }
  }

  /** A token's text is read in full and has no white space. */
  lemma TokenText(t: Token)
    requires WellFormed(t)
    ensures '\0' !in t.value && Readable(t.value) && Squeeze(t.value) == t.value
  {
    assert forall k :: 0 <= k < |t.value| ==> StartsToken(t.value[k]);
    assert forall k :: 0 <= k < |t.value| ==> !IsWhiteSpace(t.value[k]);
    SqueezeSolid(t.value);
  }

  /** What the lexer reads past a token: the white space before it, the
      token's text, and what it reads after. */
  lemma LiveAroundToken(s: string, t: Token, rest: string)
    requires NextToken(s) == Ok(Some((t, rest)))
    ensures var ws := s[..LeadingWhiteSpace(s)];
      && Live(s) == ws + (t.value + Live(rest))
      && Squeeze(ws) == [] && Readable(ws)
      && Readable(t.value) && Squeeze(t.value) == t.value
  {
    var w := LeadingWhiteSpace(s);
    var ws := s[..w];
    LiveAfterBlank(s);
    assert WellFormed(t) && s == ws + t.value + rest;
    assert s[w..] == t.value + rest;
    TokenText(t);
    LiveAppend(t.value, rest);
  }

  lemma LexTokenCase(s: string, t: Token, rest: string)
    requires NextToken(s) == Ok(Some((t, rest)))
    requires Lex(rest).Ok? <==> Readable(Live(rest))
    requires Lex(rest).Ok? ==> Values(Lex(rest).value) == Squeeze(Live(rest))
    ensures Lex(s).Ok? <==> Readable(Live(s))
    ensures Lex(s).Ok? ==> Values(Lex(s).value) == Squeeze(Live(s))
  {
    var ws := s[..LeadingWhiteSpace(s)];
    LiveAroundToken(s, t, rest);
    ReadableAppend(ws, t.value + Live(rest));
    ReadableAppend(t.value, Live(rest));
    assert Lex(s).Ok? <==> Lex(rest).Ok?;
    if Lex(s).Ok? {
      assert Lex(s).value == [t] + Lex(rest).value;
      assert ([t] + Lex(rest).value)[1..] == Lex(rest).value;
      SqueezeAppend(ws, t.value + Live(rest));
      SqueezeAppend(t.value, Live(rest));
    }
  }

  /** The lexer succeeds exactly when every character it reads is white
      space or starts a token, and then the tokens spell out the line
      without its white space. */
  lemma {:induction false} LexCharacterised(s: string)
    ensures Lex(s).Ok? <==> Readable(Live(s))
    ensures Lex(s).Ok? ==> Values(Lex(s).value) == Squeeze(Live(s))
    decreases |s|
  {
    var w := LeadingWhiteSpace(s);
    LiveAfterBlank(s);
    match NextToken(s)
    case Err(_) =>
      assert Live(s[w..])[0] == s[w];
      assert Live(s)[w] == s[w];
    case Ok(None) =>
      assert Live(s[w..]) == [];
      assert Live(s) == s[..w];
    case Ok(Some((t, rest))) =>
      LexCharacterised(rest);
      LexTokenCase(s, t, rest);
  }

  /** The tokens written out with a space after each. */
  function Render(ts: seq<Token>): (s: string) {
    if |ts| == 0 then [] else ts[0].value + " " + Render(ts[1..])
  }

  lemma {:induction false} DigitRunPrefix(v: string, rest: string)
    requires AllDigits(v)
    requires |rest| == 0 || !IsDigit(rest[0])
    ensures DigitRun(v + rest) == |v|
  {
    if |v| > 0 {
      assert (v + rest)[1..] == v[1..] + rest;
      DigitRunPrefix(v[1..], rest);
    } else {
      assert v + rest == rest;
    }
  }

  /** A space in front changes nothing. */
  lemma LexSpace(r: string)
    ensures Lex(" " + r) == Lex(r)
  {
    var s := " " + r;
    assert s[1..] == r;
    assert LeadingWhiteSpace(s) == 1 + LeadingWhiteSpace(r);
    assert s[LeadingWhiteSpace(s)..] == r[LeadingWhiteSpace(r)..];
    assert NextToken(s) == NextToken(r);
  }

  /** A well-formed token in front of a space is read back. */
  lemma NextTokenRendered(t: Token, tail: string)
    requires WellFormed(t) && |tail| > 0 && tail[0] == ' '
    ensures NextToken(t.value + tail) == Ok(Some((t, tail)))
  {
    var s := t.value + tail;
    assert s[0] == t.value[0];
    assert LeadingWhiteSpace(s) == 0;
    assert s[0..] == s;
    if t.kind == Number {
      DigitRunPrefix(t.value, tail);
      assert s[..|t.value|] == t.value && s[|t.value|..] == tail;
    } else {
      assert s[1..] == tail && [s[0]] == t.value;
    }
  }

  /** Lexing the rendering of well-formed tokens gives the tokens back. */
  lemma {:induction false} LexRender(ts: seq<Token>)
    requires forall k :: 0 <= k < |ts| ==> WellFormed(ts[k])
    ensures Lex(Render(ts)) == Ok(ts)
  {
    if |ts| > 0 {
      var t := ts[0];
      var tail := " " + Render(ts[1..]);
      assert Render(ts) == t.value + tail;
      LexRender(ts[1..]);
      LexSpace(Render(ts[1..]));
      NextTokenRendered(t, tail);
      assert [t] + ts[1..] == ts;
    } else {
      assert LeadingWhiteSpace([]) == 0;
    }
  }

  /** `Lexer.GetToken`: the token at `current` and the next position, or no
      token once all have been handed out. */
  function GetToken(tokens: seq<Token>, current: nat): (r: (Option<Token>, nat))
    requires current <= |tokens|
    ensures r.1 <= |tokens|
  {
    if current == |tokens| then (None, current) else (Some(tokens[current]), current + 1)
  }

  /** Calling `GetToken` until it returns no token. */
  function Drain(tokens: seq<Token>, current: nat): (r: seq<Token>)
    requires current <= |tokens|
    decreases |tokens| - current
  {
    match GetToken(tokens, current)
    case (None, _) => []
    case (Some(t), next) => [t] + Drain(tokens, next)
  }

  /** The calls hand out the tokens in order, each once. */
  lemma {:induction false} DrainInOrder(tokens: seq<Token>, current: nat)
    requires current <= |tokens|
    ensures Drain(tokens, current) == tokens[current..]
    decreases |tokens| - current
  {
    if current < |tokens| {
      DrainInOrder(tokens, current + 1);
      assert tokens[current..] == [tokens[current]] + tokens[current + 1..];
    }
  }

  // ---------------------------------------------------------------- shunting yard

  /** The output queue and the operator stack; `stack[0]` is the top. */
  datatype Shunt = Shunt(output: seq<Token>, stack: seq<Token>)

  /** An operator moves earlier operators to the output while the top is
      not `(` and is `+`, or always without precedence. */
  predicate PopsBefore(top: Token, usePrecedence: bool) {
    top.value != "(" && (top.value == "+" || !usePrecedence)
  }

  /** How many tokens from the top of the stack satisfy `p`. */
  function LeadingWhile(stack: seq<Token>, p: Token -> bool): (k: nat)
    ensures k <= |stack|
    ensures forall j :: 0 <= j < k ==> p(stack[j])
    ensures k < |stack| ==> !p(stack[k])
  {
    if |stack| == 0 || !p(stack[0]) then 0 else 1 + LeadingWhile(stack[1..], p)
  }

  /** Moves the top `k` tokens of the stack to the output, top first. */
  function Move(s: Shunt, k: nat): (r: Shunt)
    requires k <= |s.stack|
    ensures r.output + r.stack == s.output + s.stack
  {
    Shunt(s.output + s.stack[..k], s.stack[k..])
  }

  /** The operator case's loop. */
  function PopOperators(s: Shunt, usePrecedence: bool): (r: Shunt)
    ensures |r.stack| <= |s.stack| && r == Move(s, |s.stack| - |r.stack|)
    ensures forall j :: 0 <= j < |s.stack| - |r.stack| ==> PopsBefore(s.stack[j], usePrecedence)
    ensures |r.stack| > 0 ==> !PopsBefore(r.stack[0], usePrecedence)
    ensures |s.stack| == 0 || !PopsBefore(s.stack[0], usePrecedence) ==> r == s
  {
    assert s.output + s.stack[..0] == s.output && s.stack[0..] == s.stack;
    Move(s, LeadingWhile(s.stack, t => PopsBefore(t, usePrecedence)))
  }

  /** The `)` case's loop: operators move to the output until the top is `(`. */
  function PopToOpen(s: Shunt): (r: Shunt)
    ensures |r.stack| <= |s.stack| && r == Move(s, |s.stack| - |r.stack|)
    ensures forall j :: 0 <= j < |s.stack| - |r.stack| ==> s.stack[j].value != "("
    ensures |r.stack| > 0 ==> r.stack[0].value == "("
  {
    Move(s, LeadingWhile(s.stack, (t: Token) => t.value != "("))
  }

  /** One token of `CreateReversePolishNotation`'s loop. */
  function ShuntStep(s: Shunt, t: Token, usePrecedence: bool): (r: Shunt) {
    match t.kind
    case Number => Shunt(s.output + [t], s.stack)
    case Operator =>
      var p := PopOperators(s, usePrecedence);
      Shunt(p.output, [t] + p.stack)
    case Deliminater =>
      if t.value == "(" then Shunt(s.output, [t] + s.stack)
      else if t.value == ")" then
        var p := PopToOpen(s);
        if |p.stack| > 0 && p.stack[0].value == "(" then Shunt(p.output, p.stack[1..]) else p
      else s
    case Empty => s
  }

  /** The loop over the first `|tokens|` tokens. */
  function ShuntAll(tokens: seq<Token>, usePrecedence: bool): (r: Shunt) {
    if |tokens| == 0 then Shunt([], [])
    else ShuntStep(ShuntAll(tokens[..|tokens| - 1], usePrecedence), tokens[|tokens| - 1], usePrecedence)
  }

  /** `CreateReversePolishNotation`: after the loop, the stack is emptied
      onto the output from the top down. */
  function CreateReversePolishNotation(tokens: seq<Token>, usePrecedence: bool): (q: seq<Token>) {
    var s := ShuntAll(tokens, usePrecedence);
    s.output + s.stack
  }

  // ---------------------------------------------------------------- what the shunting keeps

  predicate IsOpen(t: Token) { t == Token(Deliminater, "(") }

  predicate IsClose(t: Token) { t == Token(Deliminater, ")") }

  function Numbers(ts: seq<Token>): (r: seq<Token>) {
    if |ts| == 0 then [] else Numbers(ts[..|ts| - 1]) + (if ts[|ts| - 1].kind == Number then [ts[|ts| - 1]] else [])
  }

  function Opens(ts: seq<Token>): (n: nat) {
    if |ts| == 0 then 0 else Opens(ts[..|ts| - 1]) + (if ts[|ts| - 1].value == "(" then 1 else 0)
  }

  /** The number of `(` not yet closed after the tokens; a `)` with none
      open closes nothing. */
  function Unclosed(ts: seq<Token>): (n: nat) {
    if |ts| == 0 then 0
    else
      var n := Unclosed(ts[..|ts| - 1]);
      if IsOpen(ts[|ts| - 1]) then n + 1
      else if IsClose(ts[|ts| - 1]) && n > 0 then n - 1
      else n
  }

  lemma {:induction false} NumbersAppend(a: seq<Token>, b: seq<Token>)
    ensures Numbers(a + b) == Numbers(a) + Numbers(b)
    decreases |b|
  {
    if |b| == 0 {
      assert a + b == a;
    } else {
      assert (a + b)[..|a + b| - 1] == a + b[..|b| - 1];
      NumbersAppend(a, b[..|b| - 1]);
    }
  }

  lemma {:induction false} OpensAppend(a: seq<Token>, b: seq<Token>)
    ensures Opens(a + b) == Opens(a) + Opens(b)
    decreases |b|
  {
    if |b| == 0 {
      assert a + b == a;
    } else {
      assert (a + b)[..|a + b| - 1] == a + b[..|b| - 1];
      OpensAppend(a, b[..|b| - 1]);
    }
  }

  lemma {:induction false} NoNumbers(ts: seq<Token>)
    requires forall k :: 0 <= k < |ts| ==> ts[k].kind != Number
    ensures Numbers(ts) == []
  {
    if |ts| > 0 {
      NoNumbers(ts[..|ts| - 1]);
    }
  }

  lemma {:induction false} NoOpens(ts: seq<Token>)
    requires forall k :: 0 <= k < |ts| ==> ts[k].value != "("
    ensures Opens(ts) == 0
  {
    if |ts| > 0 {
      NoOpens(ts[..|ts| - 1]);
    }
  }

  /** What holds after every token, for well-formed tokens: the output has
      numbers and operators only, the stack operators and `(` only, the
      stack holds one `(` per unclosed one, the numbers reached the output
      in order, and every operator is in the output or on the stack. */
  ghost predicate ShuntInvariant(tokens: seq<Token>, s: Shunt) {
    && (forall k :: 0 <= k < |s.output| ==> WellFormed(s.output[k]) && s.output[k].kind != Deliminater)
    && (forall k :: 0 <= k < |s.stack| ==> WellFormed(s.stack[k]) && (s.stack[k].kind == Operator || IsOpen(s.stack[k])))
    && Opens(s.stack) == Unclosed(tokens)
    && Numbers(s.output) == Numbers(tokens)
    && (forall k :: 0 <= k < |tokens| && tokens[k].kind == Operator ==> tokens[k] in s.output || tokens[k] in s.stack)
  }

  /** Moving operators keeps the output and stack made of the right tokens. */
  lemma MoveShapes(tokens: seq<Token>, s: Shunt, k: nat)
    requires ShuntInvariant(tokens, s) && k <= |s.stack|
    requires forall j :: 0 <= j < k ==> s.stack[j].value != "("
    ensures forall j :: 0 <= j < |Move(s, k).output| ==> WellFormed(Move(s, k).output[j]) && Move(s, k).output[j].kind != Deliminater
    ensures forall j :: 0 <= j < |Move(s, k).stack| ==> WellFormed(Move(s, k).stack[j]) && (Move(s, k).stack[j].kind == Operator || IsOpen(Move(s, k).stack[j]))
  {
    var m := Move(s, k);
    forall j | 0 <= j < |m.output|
      ensures WellFormed(m.output[j]) && m.output[j].kind != Deliminater
    {
      if j >= |s.output| {
        assert m.output[j] == s.stack[j - |s.output|];
      }
    }
    forall j | 0 <= j < |m.stack|
      ensures WellFormed(m.stack[j]) && (m.stack[j].kind == Operator || IsOpen(m.stack[j]))
    {
      assert m.stack[j] == s.stack[j + k];
    }
  }

  /** Moving operators keeps the numbers and the open parentheses counted. */
  lemma MoveCounts(tokens: seq<Token>, s: Shunt, k: nat)
    requires ShuntInvariant(tokens, s) && k <= |s.stack|
    requires forall j :: 0 <= j < k ==> s.stack[j].value != "("
    ensures Numbers(Move(s, k).output) == Numbers(tokens)
    ensures Opens(Move(s, k).stack) == Unclosed(tokens)
  {
    var m := Move(s, k);
    var moved := s.stack[..k];
    assert forall j :: 0 <= j < |moved| ==> moved[j].kind != Number;
    NoNumbers(moved);
    NumbersAppend(s.output, moved);
    assert s.stack == moved + m.stack;
    OpensAppend(moved, m.stack);
    NoOpens(moved);
  }

  /** Moving operators loses none of them. */
  lemma MoveKeepsOperators(tokens: seq<Token>, s: Shunt, k: nat)
    requires ShuntInvariant(tokens, s) && k <= |s.stack|
    ensures forall j :: 0 <= j < |tokens| && tokens[j].kind == Operator ==> tokens[j] in Move(s, k).output || tokens[j] in Move(s, k).stack
  {
    var m := Move(s, k);
    forall j | 0 <= j < |tokens| && tokens[j].kind == Operator
      ensures tokens[j] in m.output || tokens[j] in m.stack
    {
      if tokens[j] in s.stack {
        var i :| 0 <= i < |s.stack| && s.stack[i] == tokens[j];
        if i < k {
          assert m.output[|s.output| + i] == tokens[j];
        } else {
          assert m.stack[i - k] == tokens[j];
        }
      } else {
        assert tokens[j] in s.output;
        var i :| 0 <= i < |s.output| && s.output[i] == tokens[j];
        assert m.output[i] == tokens[j];
      }
    }
  }

  lemma MovePreserves(tokens: seq<Token>, s: Shunt, k: nat)
    requires ShuntInvariant(tokens, s) && k <= |s.stack|
    requires forall j :: 0 <= j < k ==> s.stack[j].value != "("
    ensures ShuntInvariant(tokens, Move(s, k))
  {
    MoveShapes(tokens, s, k);
    MoveCounts(tokens, s, k);
    MoveKeepsOperators(tokens, s, k);
  }

  /** Pushing an operator or `(`. */
  lemma PushPreserves(tokens: seq<Token>, s: Shunt, t: Token)
    requires ShuntInvariant(tokens, s) && WellFormed(t) && (t.kind == Operator || IsOpen(t))
    ensures ShuntInvariant(tokens + [t], Shunt(s.output, [t] + s.stack))
  {
    NumbersAppend(tokens, [t]);
    assert Numbers([t]) == [];
    OpensAppend([t], s.stack);
    assert [t][..0] == [];
    assert Opens([t]) == if t.value == "(" then 1 else 0;
    if t.kind == Operator {
      assert t.value[0] != "("[0];
    }
    var tokens' := tokens + [t];
    forall j | 0 <= j < |tokens'| && tokens'[j].kind == Operator
      ensures tokens'[j] in s.output || tokens'[j] in [t] + s.stack
    {
      if j < |tokens| {
        assert tokens'[j] == tokens[j];
      }
    }
  }

  /** Appending a number to the output. */
  lemma OutputPreserves(tokens: seq<Token>, s: Shunt, t: Token)
    requires ShuntInvariant(tokens, s) && WellFormed(t) && t.kind == Number
    ensures ShuntInvariant(tokens + [t], Shunt(s.output + [t], s.stack))
  {
    var tokens' := tokens + [t];
    OutputShapeAppend(s.output, t);
    assert Numbers(s.output + [t]) == Numbers(tokens') by {
      NumbersAppend(tokens, [t]);
      NumbersAppend(s.output, [t]);
      assert [t][..0] == [];
      assert Numbers([t]) == [t];
    }
    assert Unclosed(tokens') == Unclosed(tokens) by {
      assert tokens'[..|tokens|] == tokens;
    }
    forall j | 0 <= j < |tokens'| && tokens'[j].kind == Operator
      ensures tokens'[j] in s.output + [t] || tokens'[j] in s.stack
    {
      assert j < |tokens| && tokens'[j] == tokens[j];
    }
  }

  lemma OutputShapeAppend(output: seq<Token>, t: Token)
    requires forall k :: 0 <= k < |output| ==> WellFormed(output[k]) && output[k].kind != Deliminater
    requires WellFormed(t) && t.kind == Number
    ensures forall k :: 0 <= k < |output + [t]| ==> WellFormed((output + [t])[k]) && (output + [t])[k].kind != Deliminater
  {
    forall k | 0 <= k < |output + [t]|
      ensures WellFormed((output + [t])[k]) && (output + [t])[k].kind != Deliminater
    {
      if k < |output| {
        assert (output + [t])[k] == output[k];
      }
    }
  }

  /** `)` with a `(` on top of the stack drops it. */
  lemma DropOpenPreserves(tokens: seq<Token>, p: Shunt, t: Token)
    requires ShuntInvariant(tokens, p) && IsClose(t)
    requires |p.stack| > 0 && p.stack[0].value == "("
    ensures ShuntInvariant(tokens + [t], Shunt(p.output, p.stack[1..]))
  {
    var tokens' := tokens + [t];
    assert tokens'[..|tokens|] == tokens;
    NumbersAppend(tokens, [t]);
    assert [t][..0] == [];
    assert Numbers([t]) == [];
    assert p.stack == [p.stack[0]] + p.stack[1..];
    OpensAppend([p.stack[0]], p.stack[1..]);
    assert [p.stack[0]][..0] == [];
    assert Opens([p.stack[0]]) == 1;
    assert Unclosed(tokens') == Unclosed(tokens) - 1;
    forall j | 0 <= j < |p.stack| - 1
      ensures WellFormed(p.stack[1..][j]) && (p.stack[1..][j].kind == Operator || IsOpen(p.stack[1..][j]))
    {
      assert p.stack[1..][j] == p.stack[j + 1];
    }
    forall j | 0 <= j < |tokens'| && tokens'[j].kind == Operator
      ensures tokens'[j] in p.output || tokens'[j] in p.stack[1..]
    {
      assert j < |tokens| && tokens'[j] == tokens[j];
      if tokens[j] in p.stack {
        var i :| 0 <= i < |p.stack| && p.stack[i] == tokens[j];
        assert i != 0;
        assert p.stack[1..][i - 1] == tokens[j];
      }
    }
  }

  /** `)` with an empty stack changes nothing. */
  lemma EmptyClosePreserves(tokens: seq<Token>, p: Shunt, t: Token)
    requires ShuntInvariant(tokens, p) && IsClose(t) && |p.stack| == 0
    ensures ShuntInvariant(tokens + [t], p)
  {
    var tokens' := tokens + [t];
    assert tokens'[..|tokens|] == tokens;
    NumbersAppend(tokens, [t]);
    assert [t][..0] == [];
    assert Numbers([t]) == [];
    assert Opens(p.stack) == 0;
    forall j | 0 <= j < |tokens'| && tokens'[j].kind == Operator
      ensures tokens'[j] in p.output || tokens'[j] in p.stack
    {
      assert j < |tokens| && tokens'[j] == tokens[j];
    }
  }

  /** `)`: the operators above the top `(` move to the output, and the `(`
      is dropped. */
  lemma ClosePreserves(tokens: seq<Token>, s: Shunt, t: Token, usePrecedence: bool)
    requires ShuntInvariant(tokens, s) && IsClose(t)
    ensures ShuntInvariant(tokens + [t], ShuntStep(s, t, usePrecedence))
  {
    var k := LeadingWhile(s.stack, (u: Token) => u.value != "(");
    MovePreserves(tokens, s, k);
    var p := Move(s, k);
    assert t.value != "(" by {
      assert t.value[0] != "("[0];
    }
    assert ShuntStep(s, t, usePrecedence) == if |p.stack| > 0 && p.stack[0].value == "(" then Shunt(p.output, p.stack[1..]) else p;
    if |p.stack| > 0 {
      DropOpenPreserves(tokens, p, t);
    } else {
      EmptyClosePreserves(tokens, p, t);
    }
  }

  lemma StepPreserves(tokens: seq<Token>, s: Shunt, t: Token, usePrecedence: bool)
    requires ShuntInvariant(tokens, s) && WellFormed(t)
    ensures ShuntInvariant(tokens + [t], ShuntStep(s, t, usePrecedence))
  {
    match t.kind
    case Number =>
      OutputPreserves(tokens, s, t);
    case Operator =>
      var k := LeadingWhile(s.stack, (u: Token) => PopsBefore(u, usePrecedence));
      MovePreserves(tokens, s, k);
      PushPreserves(tokens, Move(s, k), t);
    case Deliminater =>
      if t.value == "(" {
        PushPreserves(tokens, s, t);
      } else {
        assert t.value[0] == ')' && t.value == [t.value[0]];
        ClosePreserves(tokens, s, t, usePrecedence);
      }
  }

  lemma {:induction false} ShuntInvariantHolds(tokens: seq<Token>, usePrecedence: bool)
    requires forall k :: 0 <= k < |tokens| ==> WellFormed(tokens[k])
    ensures ShuntInvariant(tokens, ShuntAll(tokens, usePrecedence))
  {
    if |tokens| == 0 {
      assert Numbers([]) == [] && Opens([]) == 0;
    } else {
      var prefix := tokens[..|tokens| - 1];
      var t := tokens[|tokens| - 1];
      assert tokens == prefix + [t];
      ShuntInvariantHolds(prefix, usePrecedence);
      StepPreserves(prefix, ShuntAll(prefix, usePrecedence), t, usePrecedence);
    }
  }

  /** The output followed by the stack holds well-formed tokens and no `)`. */
  lemma ContentsShape(tokens: seq<Token>, s: Shunt)
    requires ShuntInvariant(tokens, s)
    ensures forall k :: 0 <= k < |s.output + s.stack| ==> WellFormed((s.output + s.stack)[k]) && !IsClose((s.output + s.stack)[k])
  {
    var q := s.output + s.stack;
    forall k | 0 <= k < |q| ensures WellFormed(q[k]) && !IsClose(q[k]) {
      if k < |s.output| {
        assert q[k] == s.output[k];
      } else {
        assert q[k] == s.stack[k - |s.output|];
      }
    }
  }

  /** The output followed by the stack has the input's numbers and one `(`
      per unclosed one. */
  lemma ContentsCounts(tokens: seq<Token>, s: Shunt)
    requires ShuntInvariant(tokens, s)
    ensures Numbers(s.output + s.stack) == Numbers(tokens)
    ensures Opens(s.output + s.stack) == Unclosed(tokens)
  {
    NumbersAppend(s.output, s.stack);
    StackHasNoNumbers(s.stack);
    NoNumbers(s.stack);
    OpensAppend(s.output, s.stack);
    OutputHasNoOpens(s.output);
    NoOpens(s.output);
  }

  lemma StackHasNoNumbers(stack: seq<Token>)
    requires forall k :: 0 <= k < |stack| ==> WellFormed(stack[k]) && (stack[k].kind == Operator || IsOpen(stack[k]))
    ensures forall k :: 0 <= k < |stack| ==> stack[k].kind != Number
  {
  }

  lemma OutputHasNoOpens(output: seq<Token>)
    requires forall k :: 0 <= k < |output| ==> WellFormed(output[k]) && output[k].kind != Deliminater
    ensures forall k :: 0 <= k < |output| ==> output[k].value != "("
  {
    forall k | 0 <= k < |output| ensures output[k].value != "(" {
      NotOpenValue(output[k]);
    }
  }

  lemma NotOpenValue(t: Token)
    requires WellFormed(t) && t.kind != Deliminater
    ensures t.value != "("
  {
    assert IsDigit(t.value[0]) || IsOperatorChar(t.value[0]);
    assert t.value[0] != "("[0];
  }

  /** The output followed by the stack has every operator of the input. */
  lemma ContentsOperators(tokens: seq<Token>, s: Shunt)
    requires ShuntInvariant(tokens, s)
    ensures forall k :: 0 <= k < |tokens| && tokens[k].kind == Operator ==> tokens[k] in s.output + s.stack
  {
    forall k | 0 <= k < |tokens| && tokens[k].kind == Operator ensures tokens[k] in s.output + s.stack {
      assert tokens[k] in s.output || tokens[k] in s.stack;
    }
  }

  /** For well-formed tokens the RPN holds the numbers in their original
      order and every operator; it holds no `)`, and exactly one `(` per
      parenthesis left unclosed, so none when the input is balanced. */
  lemma ReversePolishNotationContents(tokens: seq<Token>, usePrecedence: bool)
    requires forall k :: 0 <= k < |tokens| ==> WellFormed(tokens[k])
    ensures var q := CreateReversePolishNotation(tokens, usePrecedence);
      && (forall k :: 0 <= k < |q| ==> WellFormed(q[k]))
      && Numbers(q) == Numbers(tokens)
      && (forall k :: 0 <= k < |tokens| && tokens[k].kind == Operator ==> tokens[k] in q)
      && (forall k :: 0 <= k < |q| ==> !IsClose(q[k]))
      && Opens(q) == Unclosed(tokens)
  {
    ShuntInvariantHolds(tokens, usePrecedence);
    var s := ShuntAll(tokens, usePrecedence);
    ContentsShape(tokens, s);
    ContentsCounts(tokens, s);
    ContentsOperators(tokens, s);
  }

  // ---------------------------------------------------------------- evaluation

  /** One RPN token against the value stack (top last): a number is pushed;
      an operator pops `y`, then `x` (an empty stack throws) and pushes
      `x + y` or `x * y`; any other operator throws. */
  function EvalStep(stack: seq<int>, t: Token): (r: Result<seq<int>>)
    ensures r.Ok? && t.kind == Number ==> |r.value| == |stack| + 1
    ensures r.Ok? && t.kind != Number ==> |stack| >= 2 && |r.value| == |stack| - 1
    ensures r.Ok? && t.kind != Number ==> t.value == "+" || t.value == "*"
  {
    if t.kind == Number then
      match ParseInt(t.value)
      case Some(v) => Ok(stack + [v])
      case None => Err("Input string was not in a correct format.")
    else if |stack| < 2 then Err("Stack empty.")
    else
      var y := stack[|stack| - 1];
      var x := stack[|stack| - 2];
      var rest := stack[..|stack| - 2];
      if t.value == "+" then Ok(rest + [x + y])
      else if t.value == "*" then Ok(rest + [x * y])
      else Err("Invalid operator: " + t.value)
  }

  /** The loop of `EvaluateRPN` from the value stack `stack`. */
  function Run(stack: seq<int>, q: seq<Token>): (r: Result<seq<int>>)
    decreases |q|
  {
    if |q| == 0 then Ok(stack)
    else
      var next :- EvalStep(stack, q[0]);
      Run(next, q[1..])
  }

  /** `EvaluateRPN`: the top of the value stack at the end. */
  function EvaluateRPN(q: seq<Token>): (r: Result<int>) {
    var stack :- Run([], q);
    if |stack| == 0 then Err("Stack empty.") else Ok(stack[|stack| - 1])
  }

  lemma {:induction false} RunAppend(stack: seq<int>, a: seq<Token>, b: seq<Token>)
    ensures Run(stack, a + b) == match Run(stack, a) case Ok(s) => Run(s, b) case Err(e) => Err(e)
    decreases |a|
  {
    if |a| == 0 {
      assert a + b == b;
    } else {
      assert (a + b)[0] == a[0] && (a + b)[1..] == a[1..] + b;
      match EvalStep(stack, a[0])
      case Ok(s) => RunAppend(s, a[1..], b);
      case Err(_) =>
    }
  }

  /** An operator other than `+` and `*` in the RPN, such as `-` or a `(`
      left over, makes the evaluation throw. */
  lemma {:induction false} RunRejects(stack: seq<int>, q: seq<Token>, k: nat)
    requires k < |q| && q[k].kind != Number && q[k].value != "+" && q[k].value != "*"
    ensures Run(stack, q).Err?
    decreases k
  {
    if k > 0 {
      match EvalStep(stack, q[0])
      case Ok(next) =>
        assert q[1..][k - 1] == q[k];
        RunRejects(next, q[1..], k - 1);
      case Err(_) =>
    }
  }

  lemma {:induction false} OpenAt(q: seq<Token>) returns (k: nat)
    requires Opens(q) > 0
    ensures k < |q| && q[k].value == "("
  {
    if q[|q| - 1].value == "(" {
      k := |q| - 1;
    } else {
      k := OpenAt(q[..|q| - 1]);
    }
  }

  /** `EvaluateExpression`. */
  function EvaluateExpression(expr: string, usePrecedence: bool): (r: Result<int>) {
    var tokens :- Lex(expr);
    EvaluateRPN(CreateReversePolishNotation(tokens, usePrecedence))
  }

  /** Tokens whose parentheses are not all closed, or that subtract, fail
      to evaluate. */
  lemma FailingTokens(tokens: seq<Token>, usePrecedence: bool)
    requires forall k :: 0 <= k < |tokens| ==> WellFormed(tokens[k])
    requires Unclosed(tokens) > 0 || Token(Operator, "-") in tokens
    ensures EvaluateRPN(CreateReversePolishNotation(tokens, usePrecedence)).Err?
  {
    var q := CreateReversePolishNotation(tokens, usePrecedence);
    ReversePolishNotationContents(tokens, usePrecedence);
    var k: nat;
    if Unclosed(tokens) > 0 {
      k := OpenAt(q);
      assert q[k].value[0] == '(';
    } else {
      var i :| 0 <= i < |tokens| && tokens[i] == Token(Operator, "-");
      assert tokens[i] in q;
      k :| 0 <= k < |q| && q[k] == Token(Operator, "-");
      assert q[k].value[0] == '-';
    }
    RunRejects([], q, k);
  }

  /** A line whose parentheses are not all closed, or that subtracts,
      fails to evaluate. */
  lemma FailingExpressions(expr: string, usePrecedence: bool)
    requires Lex(expr).Ok?
    requires Unclosed(Lex(expr).value) > 0 || Token(Operator, "-") in Lex(expr).value
    ensures EvaluateExpression(expr, usePrecedence).Err?
  {
    FailingTokens(Lex(expr).value, usePrecedence);
  }

  // ---------------------------------------------------------------- parenthesis-free expressions

  /** `n op n op … n` with numbers and the operators `+` and `*`. */
  predicate Alternating(ts: seq<Token>) {
    && |ts| % 2 == 1
    && (forall k :: 0 <= k < |ts| && k % 2 == 0 ==> ts[k].kind == Number && |ts[k].value| >= 1 && AllDigits(ts[k].value))
    && (forall k :: 0 <= k < |ts| && k % 2 == 1 ==> ts[k] == Plus || ts[k] == Times)
  }

  function Num(t: Token): nat
    requires AllDigits(t.value)
  {
    DigitsValue(t.value)
  }

  function Apply(op: Token, x: int, y: int): int {
    if op == Plus then x + y else x * y
  }

  lemma AlternatingPrefix(ts: seq<Token>)
    requires Alternating(ts) && |ts| >= 3
    ensures Alternating(ts[..|ts| - 2])
  {
    var p := ts[..|ts| - 2];
    assert forall k :: 0 <= k < |p| ==> p[k] == ts[k];
  }

  /** The value with both operators of equal precedence, left to right. */
  function LeftToRight(ts: seq<Token>): int
    requires Alternating(ts)
    decreases |ts|
  {
    if |ts| == 1 then Num(ts[0])
    else
      AlternatingPrefix(ts);
      Apply(ts[|ts| - 2], LeftToRight(ts[..|ts| - 2]), Num(ts[|ts| - 1]))
  }

  /** The sums of the runs joined by `+`, in order. */
  function Groups(ts: seq<Token>): (g: seq<int>)
    requires Alternating(ts)
    ensures |g| >= 1
    decreases |ts|
  {
    if |ts| == 1 then [Num(ts[0])]
    else
      AlternatingPrefix(ts);
      var g := Groups(ts[..|ts| - 2]);
      var n := Num(ts[|ts| - 1]);
      if ts[|ts| - 2] == Plus then g[..|g| - 1] + [g[|g| - 1] + n] else g + [n]
  }

  /** The value when `+` binds tighter than `*`: the product of the sums. */
  function AdditionFirst(ts: seq<Token>): int
    requires Alternating(ts)
  {
    Seqs.Product(Groups(ts))
  }

  /** The two tokens an alternating expression grows by, taken one at a time. */
  lemma ShuntTwo(ts: seq<Token>, usePrecedence: bool)
    requires |ts| >= 3
    ensures ShuntAll(ts, usePrecedence)
      == ShuntStep(ShuntStep(ShuntAll(ts[..|ts| - 2], usePrecedence), ts[|ts| - 2], usePrecedence), ts[|ts| - 1], usePrecedence)
  {
    assert ts[..|ts| - 1][..|ts| - 2] == ts[..|ts| - 2];
  }

  /** Evaluating one more number pushes its value. */
  lemma RunNumber(stack: seq<int>, q: seq<Token>, t: Token)
    requires Run([], q) == Ok(stack)
    requires t.kind == Number && |t.value| >= 1 && AllDigits(t.value)
    ensures Run([], q + [t]) == Ok(stack + [Num(t)])
  {
    RunAppend([], q, [t]);
    assert EvalStep(stack, t) == Ok(stack + [Num(t)]);
    assert [t][1..] == [];
  }

  /** Evaluating `+` or `*` combines the top two values. */
  lemma RunOperator(rest: seq<int>, x: int, y: int, q: seq<Token>, op: Token)
    requires Run([], q) == Ok(rest + [x, y])
    requires op == Plus || op == Times
    ensures Run([], q + [op]) == Ok(rest + [Apply(op, x, y)])
  {
    OperatorValues();
    RunAppend([], q, [op]);
    var st := rest + [x, y];
    assert st[..|st| - 2] == rest && st[|st| - 1] == y && st[|st| - 2] == x;
    assert EvalStep(st, op) == Ok(rest + [Apply(op, x, y)]);
    assert [op][1..] == [];
  }

  lemma NumberShunt(s: Shunt, t: Token, usePrecedence: bool)
    requires t.kind == Number
    ensures ShuntStep(s, t, usePrecedence) == Shunt(s.output + [t], s.stack)
  {
  }

  lemma OperatorShunt(s: Shunt, t: Token, usePrecedence: bool)
    requires t.kind == Operator
    ensures ShuntStep(s, t, usePrecedence).stack == [t] + PopOperators(s, usePrecedence).stack
    ensures ShuntStep(s, t, usePrecedence).output == PopOperators(s, usePrecedence).output
  {
  }

  lemma ShuntFirst(ts: seq<Token>, usePrecedence: bool)
    requires |ts| >= 1 && ts[0].kind == Number
    ensures ShuntAll(ts[..1], usePrecedence) == Shunt([ts[0]], [])
  {
    assert ts[..1][..0] == [];
  }

  lemma OperatorAt(ts: seq<Token>, k: nat)
    requires Alternating(ts) && k < |ts| && k % 2 == 1
    ensures ts[k] == Plus || ts[k] == Times
  {
  }

  lemma LastIsNumber(ts: seq<Token>)
    requires Alternating(ts)
    ensures ts[|ts| - 1].kind == Number && |ts[|ts| - 1].value| >= 1 && AllDigits(ts[|ts| - 1].value)
  {
    assert (|ts| - 1) % 2 == 0;
  }

  /** Without precedence, after `n op … n` the output evaluates to the value
      of all but the last number, and that number, while the last operator
      waits alone on the stack. */
  ghost predicate PlainState(ts: seq<Token>, s: Shunt)
    requires Alternating(ts)
  {
    if |ts| == 1 then s.stack == [] && Run([], s.output) == Ok([Num(ts[0])])
    else
      && Alternating(ts[..|ts| - 2])
      && s.stack == [ts[|ts| - 2]]
      && Run([], s.output) == Ok([LeftToRight(ts[..|ts| - 2]), Num(ts[|ts| - 1])])
  }

  /** An operator meeting an empty stack is pushed and nothing moves. */
  lemma OperatorOnEmpty(s: Shunt, op: Token, usePrecedence: bool)
    requires s.stack == [] && op.kind == Operator
    ensures ShuntStep(s, op, usePrecedence) == Shunt(s.output, [op])
  {
    OperatorShunt(s, op, usePrecedence);
    var r := PopOperators(s, usePrecedence);
    assert r == Move(s, 0);
    assert s.output + s.stack[..0] == s.output;
    assert [op] + [] == [op];
  }

  /** An operator meeting a single operator that pops moves it out. */
  lemma OperatorOnOne(s: Shunt, last: Token, op: Token, usePrecedence: bool)
    requires s.stack == [last] && PopsBefore(last, usePrecedence) && op.kind == Operator
    ensures ShuntStep(s, op, usePrecedence) == Shunt(s.output + [last], [op])
  {
    OperatorShunt(s, op, usePrecedence);
    var r := PopOperators(s, usePrecedence);
    assert |r.stack| == 0;
    assert r == Move(s, 1);
    assert s.stack[..1] == [last];
    assert [op] + [] == [op];
  }

  /** Without precedence an operator first moves the waiting one out. */
  lemma PlainOperator(p: seq<Token>, s: Shunt, op: Token)
    requires Alternating(p) && PlainState(p, s) && (op == Plus || op == Times)
    ensures ShuntStep(s, op, false).stack == [op]
    ensures Run([], ShuntStep(s, op, false).output) == Ok([LeftToRight(p)])
  {
    OperatorValues();
    if |p| == 1 {
      OperatorOnEmpty(s, op, false);
    } else {
      var last := p[|p| - 2];
      OperatorAt(p, |p| - 2);
      OperatorOnOne(s, last, op, false);
      AlternatingPrefix(p);
      var x, y := LeftToRight(p[..|p| - 2]), Num(p[|p| - 1]);
      assert [] + [x, y] == [x, y];
      RunOperator([], x, y, s.output, last);
      assert [] + [Apply(last, x, y)] == [LeftToRight(p)];
    }
  }

  /** Without precedence the number after an operator joins the output. */
  lemma PlainNumber(ts: seq<Token>, a: Shunt)
    requires Alternating(ts) && |ts| >= 3
    requires Alternating(ts[..|ts| - 2])
    requires a.stack == [ts[|ts| - 2]] && Run([], a.output) == Ok([LeftToRight(ts[..|ts| - 2])])
    ensures PlainState(ts, ShuntStep(a, ts[|ts| - 1], false))
  {
    var t := ts[|ts| - 1];
    NumberShunt(a, t, false);
    RunNumber([LeftToRight(ts[..|ts| - 2])], a.output, t);
    assert [LeftToRight(ts[..|ts| - 2])] + [Num(t)] == [LeftToRight(ts[..|ts| - 2]), Num(t)];
  }

  lemma {:induction false} PlainShunt(ts: seq<Token>)
    requires Alternating(ts)
    ensures PlainState(ts, ShuntAll(ts, false))
  {
    if |ts| == 1 {
      ShuntFirst(ts, false);
      assert ts[..1] == ts;
      RunNumber([], [], ts[0]);
      assert [] + [ts[0]] == [ts[0]] && [] + [Num(ts[0])] == [Num(ts[0])];
    } else {
      var p := ts[..|ts| - 2];
      AlternatingPrefix(ts);
      PlainShunt(p);
      ShuntTwo(ts, false);
      OperatorAt(ts, |ts| - 2);
      PlainOperator(p, ShuntAll(p, false), ts[|ts| - 2]);
      PlainNumber(ts, ShuntStep(ShuntAll(p, false), ts[|ts| - 2], false));
    }
  }

  /** Without precedence, a parenthesis-free expression evaluates strictly
      left to right. */
  lemma LeftToRightEvaluation(ts: seq<Token>)
    requires Alternating(ts)
    ensures EvaluateRPN(CreateReversePolishNotation(ts, false)) == Ok(LeftToRight(ts))
  {
    PlainShunt(ts);
    var s := ShuntAll(ts, false);
    if |ts| >= 3 {
      OperatorAt(ts, |ts| - 2);
      assert [] + [LeftToRight(ts[..|ts| - 2]), Num(ts[|ts| - 1])] == [LeftToRight(ts[..|ts| - 2]), Num(ts[|ts| - 1])];
      RunOperator([], LeftToRight(ts[..|ts| - 2]), Num(ts[|ts| - 1]), s.output, ts[|ts| - 2]);
    } else {
      assert s.output + s.stack == s.output;
    }
  }

  function Stars(k: nat): (r: seq<Token>)
    ensures |r| == k && forall j :: 0 <= j < k ==> r[j] == Times
  {
    seq(k, _ => Times)
  }

  lemma StarsCons(k: nat)
    ensures [Times] + Stars(k) == Stars(k + 1)
  {
  }

  lemma ProductLastTwo(y: seq<int>)
    requires |y| >= 2
    ensures Seqs.Product(y[..|y| - 2] + [y[|y| - 2] * y[|y| - 1]]) == Seqs.Product(y)
  {
    var n := |y|;
    var a, b := y[n - 2], y[n - 1];
    assert y == y[..n - 2] + [a, b];
    Seqs.ProductAppend(y[..n - 2], [a, b]);
    Seqs.ProductAppend(y[..n - 2], [a * b]);
    assert [a, b][1..] == [b];
    assert Seqs.Product([b]) == b;
    assert Seqs.Product([a * b]) == a * b;
  }

  /** The `*`s left on the stack multiply the top `k + 1` values together. */
  lemma {:induction false} StarsCollapse(x: seq<int>, y: seq<int>, k: nat)
    requires |y| == k + 1
    ensures Run(x + y, Stars(k)) == Ok(x + [Seqs.Product(y)])
    decreases k
  {
    if k == 0 {
      assert y == [y[0]];
      assert Seqs.Product(y) == y[0] * 1;
    } else {
      var stack := x + y;
      var y' := y[..k - 1] + [y[k - 1] * y[k]];
      assert stack[..|stack| - 2] == x + y[..k - 1];
      assert stack[|stack| - 1] == y[k] && stack[|stack| - 2] == y[k - 1];
      OperatorValues();
      assert EvalStep(stack, Times) == Ok(stack[..|stack| - 2] + [y[k - 1] * y[k]]);
      assert x + y[..k - 1] + [y[k - 1] * y[k]] == x + y';
      assert Stars(k)[1..] == Stars(k - 1);
      StarsCollapse(x, y', k - 1);
      ProductLastTwo(y);
    }
  }

  predicate LastIsPlus(ts: seq<Token>) {
    |ts| >= 3 && ts[|ts| - 2] == Plus
  }

  /** With precedence the `*`s wait on the stack, one per finished group,
      under a `+` when the last operator was one; the output evaluates to
      the finished groups' sums and the current group (its last number
      still apart when the last operator was `+`). */
  ghost predicate PrecState(ts: seq<Token>, s: Shunt)
    requires Alternating(ts)
  {
    var g := Groups(ts);
    var n := Num(ts[|ts| - 1]);
    if LastIsPlus(ts) then
      s.stack == [Plus] + Stars(|g| - 1) && Run([], s.output) == Ok(g[..|g| - 1] + [g[|g| - 1] - n, n])
    else
      s.stack == Stars(|g| - 1) && Run([], s.output) == Ok(g)
  }

  /** An operator whose top does not pop is pushed and nothing moves. */
  lemma OperatorKeeps(s: Shunt, op: Token, usePrecedence: bool)
    requires op.kind == Operator
    requires |s.stack| > 0 ==> !PopsBefore(s.stack[0], usePrecedence)
    ensures ShuntStep(s, op, usePrecedence) == Shunt(s.output, [op] + s.stack)
  {
    OperatorShunt(s, op, usePrecedence);
  }

  /** An operator whose top alone pops moves that one token out. */
  lemma OperatorPopsOne(s: Shunt, op: Token, usePrecedence: bool)
    requires op.kind == Operator
    requires |s.stack| > 0 && PopsBefore(s.stack[0], usePrecedence)
    requires |s.stack| > 1 ==> !PopsBefore(s.stack[1], usePrecedence)
    ensures ShuntStep(s, op, usePrecedence) == Shunt(s.output + [s.stack[0]], [op] + s.stack[1..])
  {
    OperatorShunt(s, op, usePrecedence);
    var r := PopOperators(s, usePrecedence);
    assert r == Move(s, 1);
    assert s.stack[..1] == [s.stack[0]];
  }

  /** With precedence an operator after a `+` moves that `+` out. */
  lemma PrecOperatorAfterPlus(p: seq<Token>, s: Shunt, op: Token)
    requires Alternating(p) && PrecState(p, s) && (op == Plus || op == Times) && LastIsPlus(p)
    ensures ShuntStep(s, op, true).stack == [op] + Stars(|Groups(p)| - 1)
    ensures Run([], ShuntStep(s, op, true).output) == Ok(Groups(p))
  {
    OperatorValues();
    var m := |Groups(p)|;
    assert s.stack == [Plus] + Stars(m - 1);
    assert |s.stack| > 1 ==> s.stack[1] == Times;
    OperatorPopsOne(s, op, true);
    assert s.stack[1..] == Stars(m - 1);
    PlusCompletes(p, s);
  }

  /** With precedence an operator moves a waiting `+` out, never a `*`. */
  lemma PrecOperator(p: seq<Token>, s: Shunt, op: Token)
    requires Alternating(p) && PrecState(p, s) && (op == Plus || op == Times)
    ensures ShuntStep(s, op, true).stack == [op] + Stars(|Groups(p)| - 1)
    ensures Run([], ShuntStep(s, op, true).output) == Ok(Groups(p))
  {
    if LastIsPlus(p) {
      PrecOperatorAfterPlus(p, s, op);
    } else {
      OperatorValues();
      assert |s.stack| > 0 ==> s.stack[0] == Times;
      OperatorKeeps(s, op, true);
    }
  }

  /** With precedence the number after a `+` joins the current group. */
  lemma PrecNumberAfterPlus(ts: seq<Token>, a: Shunt)
    requires Alternating(ts) && |ts| >= 3 && ts[|ts| - 2] == Plus
    requires Alternating(ts[..|ts| - 2])
    requires a.stack == [Plus] + Stars(|Groups(ts[..|ts| - 2])| - 1)
    requires Run([], a.output) == Ok(Groups(ts[..|ts| - 2]))
    ensures PrecState(ts, ShuntStep(a, ts[|ts| - 1], true))
  {
    var g := Groups(ts[..|ts| - 2]);
    var t := ts[|ts| - 1];
    LastIsNumber(ts);
    var b := ShuntStep(a, t, true);
    assert b == Shunt(a.output + [t], a.stack) by {
      NumberShunt(a, t, true);
    }
    assert Run([], b.output) == Ok(g + [Num(t)]) by {
      RunNumber(g, a.output, t);
    }
    GroupsAfterPlus(ts);
    PlusShape(g, Num(t));
    PrecStatePlus(ts, b);
  }

  lemma GroupsAfterPlus(ts: seq<Token>)
    requires Alternating(ts) && |ts| >= 3 && ts[|ts| - 2] == Plus
    requires Alternating(ts[..|ts| - 2])
    ensures var g := Groups(ts[..|ts| - 2]);
            Groups(ts) == g[..|g| - 1] + [g[|g| - 1] + Num(ts[|ts| - 1])]
  {
    LastIsNumber(ts);
    assert |ts| != 1;
  }

  /** Adding `n` to the last group, then splitting it off again. */
  lemma PlusShape(g: seq<int>, n: int)
    requires |g| >= 1
    ensures var g' := g[..|g| - 1] + [g[|g| - 1] + n];
            |g'| == |g| && g + [n] == g'[..|g'| - 1] + [g'[|g'| - 1] - n, n]
  {
    var m := |g|;
    var g' := g[..m - 1] + [g[m - 1] + n];
    assert g'[..m - 1] == g[..m - 1];
    assert g == g[..m - 1] + [g[m - 1]];
  }

  lemma PrecStatePlus(ts: seq<Token>, s: Shunt)
    requires Alternating(ts) && LastIsPlus(ts)
    requires s.stack == [Plus] + Stars(|Groups(ts)| - 1)
    requires var g, n := Groups(ts), Num(ts[|ts| - 1]);
             Run([], s.output) == Ok(g[..|g| - 1] + [g[|g| - 1] - n, n])
    ensures PrecState(ts, s)
  {
  }

  lemma PrecStateTimes(ts: seq<Token>, s: Shunt)
    requires Alternating(ts) && !LastIsPlus(ts)
    requires s.stack == Stars(|Groups(ts)| - 1) && Run([], s.output) == Ok(Groups(ts))
    ensures PrecState(ts, s)
  {
  }

  /** With precedence the number after a `*` starts a new group. */
  lemma PrecNumberAfterTimes(ts: seq<Token>, a: Shunt)
    requires Alternating(ts) && |ts| >= 3 && ts[|ts| - 2] == Times
    requires Alternating(ts[..|ts| - 2])
    requires a.stack == [Times] + Stars(|Groups(ts[..|ts| - 2])| - 1)
    requires Run([], a.output) == Ok(Groups(ts[..|ts| - 2]))
    ensures PrecState(ts, ShuntStep(a, ts[|ts| - 1], true))
  {
    var g := Groups(ts[..|ts| - 2]);
    var m := |g|;
    var t := ts[|ts| - 1];
    LastIsNumber(ts);
    var b := ShuntStep(a, t, true);
    assert b == Shunt(a.output + [t], a.stack) by {
      NumberShunt(a, t, true);
    }
    assert Run([], b.output) == Ok(g + [Num(t)]) by {
      RunNumber(g, a.output, t);
    }
    assert Groups(ts) == g + [Num(t)] by {
      OperatorValues();
    }
    assert b.stack == Stars(m) by {
      StarsCons(m - 1);
    }
    PrecStateTimes(ts, b);
  }

  /** With precedence the number after an operator joins the output. */
  lemma PrecNumber(ts: seq<Token>, a: Shunt)
    requires Alternating(ts) && |ts| >= 3
    requires Alternating(ts[..|ts| - 2])
    requires a.stack == [ts[|ts| - 2]] + Stars(|Groups(ts[..|ts| - 2])| - 1)
    requires Run([], a.output) == Ok(Groups(ts[..|ts| - 2]))
    ensures PrecState(ts, ShuntStep(a, ts[|ts| - 1], true))
  {
    OperatorAt(ts, |ts| - 2);
    if ts[|ts| - 2] == Plus {
      PrecNumberAfterPlus(ts, a);
    } else {
      PrecNumberAfterTimes(ts, a);
    }
  }

  lemma {:induction false} PrecShunt(ts: seq<Token>)
    requires Alternating(ts)
    ensures PrecState(ts, ShuntAll(ts, true))
  {
    if |ts| == 1 {
      ShuntFirst(ts, true);
      assert ts[..1] == ts;
      RunNumber([], [], ts[0]);
      assert [] + [ts[0]] == [ts[0]] && [] + [Num(ts[0])] == [Num(ts[0])];
      assert Stars(0) == [];
    } else {
      var p := ts[..|ts| - 2];
      AlternatingPrefix(ts);
      PrecShunt(p);
      ShuntTwo(ts, true);
      OperatorAt(ts, |ts| - 2);
      PrecOperator(p, ShuntAll(p, true), ts[|ts| - 2]);
      PrecNumber(ts, ShuntStep(ShuntAll(p, true), ts[|ts| - 2], true));
    }
  }

  /** Output that evaluates to the groups, followed by one `*` fewer than
      there are groups, evaluates to their product. */
  lemma RunThenStars(out: seq<Token>, g: seq<int>)
    requires Run([], out) == Ok(g) && |g| >= 1
    ensures Run([], out + Stars(|g| - 1)) == Ok([Seqs.Product(g)])
  {
    RunAppend([], out, Stars(|g| - 1));
    assert [] + g == g;
    StarsCollapse([], g, |g| - 1);
    assert [] + [Seqs.Product(g)] == [Seqs.Product(g)];
  }

  /** After a trailing `+` the popped `+` completes the last group. */
  lemma PlusCompletes(ts: seq<Token>, s: Shunt)
    requires Alternating(ts) && PrecState(ts, s) && LastIsPlus(ts)
    ensures Run([], s.output + [Plus]) == Ok(Groups(ts))
    ensures s.output + s.stack == (s.output + [Plus]) + Stars(|Groups(ts)| - 1)
  {
    var g := Groups(ts);
    var m := |g|;
    var n := Num(ts[|ts| - 1]);
    RunOperator(g[..m - 1], g[m - 1] - n, n, s.output, Plus);
    OperatorValues();
    assert g[..m - 1] + [g[m - 1]] == g;
  }

  /** With precedence, a parenthesis-free expression is the product of the
      sums of its `+`-joined runs: `+` binds tighter than `*`. */
  lemma AdditionFirstEvaluation(ts: seq<Token>)
    requires Alternating(ts)
    ensures EvaluateRPN(CreateReversePolishNotation(ts, true)) == Ok(AdditionFirst(ts))
  {
    PrecShunt(ts);
    var s := ShuntAll(ts, true);
    var g := Groups(ts);
    if LastIsPlus(ts) {
      PlusCompletes(ts, s);
      RunThenStars(s.output + [Plus], g);
    } else {
      RunThenStars(s.output, g);
    }
  }

  /** A rendered parenthesis-free line evaluates left to right in part 1 and
      additions first in part 2. */
  lemma RenderedExpressions(ts: seq<Token>)
    requires Alternating(ts)
    ensures EvaluateExpression(Render(ts), false) == Ok(LeftToRight(ts))
    ensures EvaluateExpression(Render(ts), true) == Ok(AdditionFirst(ts))
  {
    forall k | 0 <= k < |ts|
      ensures WellFormed(ts[k])
    {
      if k % 2 == 1 {
        assert ts[k] == Plus || ts[k] == Times;
      }
    }
    LexRender(ts);
    LeftToRightEvaluation(ts);
    AdditionFirstEvaluation(ts);
  }

  // ---------------------------------------------------------------- the parts

  /** The sum of the lines' values; the first failing line fails the sum. */
  function SumOfLines(lines: seq<string>, usePrecedence: bool): (r: Result<int>) {
    if |lines| == 0 then Ok(0)
    else
      var v :- EvaluateExpression(lines[0], usePrecedence);
      var rest :- SumOfLines(lines[1..], usePrecedence);
      Ok(v + rest)
  }

  /** The sum succeeds exactly when every line evaluates. */
  lemma {:induction false} SumOfLinesOk(lines: seq<string>, usePrecedence: bool)
    ensures SumOfLines(lines, usePrecedence).Ok?
      <==> forall i :: 0 <= i < |lines| ==> EvaluateExpression(lines[i], usePrecedence).Ok?
  {
    if |lines| > 0 {
      SumOfLinesOk(lines[1..], usePrecedence);
      assert forall i :: 1 <= i < |lines| ==> lines[i] == lines[1..][i - 1];
    }
  }

  /** The value of each line, in order. */
  function LineValues(lines: seq<string>, usePrecedence: bool): (r: seq<int>)
    requires forall i :: 0 <= i < |lines| ==> EvaluateExpression(lines[i], usePrecedence).Ok?
  {
    if |lines| == 0 then [] else [EvaluateExpression(lines[0], usePrecedence).value] + LineValues(lines[1..], usePrecedence)
  }

  /** A sum that succeeds is the sum of the lines' values. */
  lemma {:induction false} SumOfLinesValue(lines: seq<string>, usePrecedence: bool)
    ensures SumOfLines(lines, usePrecedence).Ok? ==>
      && (forall i :: 0 <= i < |lines| ==> EvaluateExpression(lines[i], usePrecedence).Ok?)
      && SumOfLines(lines, usePrecedence).value == Seqs.Sum(LineValues(lines, usePrecedence))
  {
    SumOfLinesOk(lines, usePrecedence);
    if |lines| > 0 {
      SumOfLinesValue(lines[1..], usePrecedence);
    }
  }

  /** Part 1: the sum of the lines evaluated left to right. */
  function Part1(lines: seq<string>): (r: Result<int>)
    ensures r.Ok? <==> forall i :: 0 <= i < |lines| ==> EvaluateExpression(lines[i], false).Ok?
    ensures r.Ok? ==> r.value == Seqs.Sum(LineValues(lines, false))
  {
    SumOfLinesOk(lines, false);
    SumOfLinesValue(lines, false);
    SumOfLines(lines, false)
  }

  /** Part 2: the sum of the lines evaluated with `+` before `*`. */
  function Part2(lines: seq<string>): (r: Result<int>)
    ensures r.Ok? <==> forall i :: 0 <= i < |lines| ==> EvaluateExpression(lines[i], true).Ok?
    ensures r.Ok? ==> r.value == Seqs.Sum(LineValues(lines, true))
  {
    SumOfLinesOk(lines, true);
    SumOfLinesValue(lines, true);
    SumOfLines(lines, true)
  }
}
