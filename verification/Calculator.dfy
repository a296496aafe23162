/**
  python/calculator.py: sums and differences with parentheses and a leading minus, evaluated by a stack of tokens.

  An expression tree is written down with any number of spaces between its tokens; calculating the text gives the value
  of the tree.
*/
module Calculators {
  import opened Wrappers

  datatype Token = Num(v: int) | Left | Right | Plus | Minus

  // ---- Expressions ----------------------------------------------------------------------------------------------

  /** `Group` stands for parentheses that need not be there. */
  datatype Expr = Number(digits: string) | Group(e: Expr) | Negate(e: Expr) | Add(l: Expr, r: Expr) | Subtract(l: Expr, r: Expr)

  /** A token as it is written: a number in digits or a single character. */
  datatype Lexeme = Digits(digits: string) | Symbol(token: Token)

  predicate IsDigit(c: char) { '0' <= c <= '9' }

  function DecimalValue(digits: string): nat
    requires forall i :: 0 <= i < |digits| ==> IsDigit(digits[i])
  {
    if digits == "" then 0
    else
      assert IsDigit(digits[|digits| - 1]);
      10 * DecimalValue(digits[..|digits| - 1]) + (digits[|digits| - 1] as int - '0' as int)
  }

  predicate Numeral(digits: string) { digits != "" && forall i :: 0 <= i < |digits| ==> IsDigit(digits[i]) }

  predicate Writable(e: Expr) {
    match e
    case Number(digits) => Numeral(digits)
    case Group(e) => Writable(e)
    case Negate(e) => Writable(e)
    case Add(l, r) => Writable(l) && Writable(r)
    case Subtract(l, r) => Writable(l) && Writable(r)
  }

  function Value(e: Expr): int
    requires Writable(e)
  {
    match e
    case Number(digits) => DecimalValue(digits)
    case Group(e) => Value(e)
    case Negate(e) => -Value(e)
    case Add(l, r) => Value(l) + Value(r)
    case Subtract(l, r) => Value(l) - Value(r)
  }

  /** The right operand of an operator gets parentheses where it needs them. */
  function Operand(e: Expr): (xs: seq<Lexeme>)
    ensures Writable(e) ==> LexemesOk(xs)
    decreases e, 1
  {
    if e.Number? || e.Group? then Written(e) else [Symbol(Left)] + Written(e) + [Symbol(Right)]
  }

  function Written(e: Expr): (xs: seq<Lexeme>)
    ensures Writable(e) ==> LexemesOk(xs)
    decreases e, 0
  {
    match e
    case Number(digits) => [Digits(digits)]
    case Group(e) => [Symbol(Left)] + Written(e) + [Symbol(Right)]
    case Negate(e) => [Symbol(Minus)] + Operand(e)
    case Add(l, r) => Written(l) + ([Symbol(Plus)] + Operand(r))
    case Subtract(l, r) => Written(l) + ([Symbol(Minus)] + Operand(r))
  }

  predicate LexemeOk(x: Lexeme) { if x.Digits? then Numeral(x.digits) else !x.token.Num? }

  predicate LexemesOk(xs: seq<Lexeme>) { forall i :: 0 <= i < |xs| ==> LexemeOk(xs[i]) }

  function Meaning(x: Lexeme): Token
    requires LexemeOk(x)
  {
    match x case Digits(digits) => Num(DecimalValue(digits)) case Symbol(token) => token
  }

  function Meanings(xs: seq<Lexeme>): seq<Token>
    requires LexemesOk(xs)
  {
    seq(|xs|, i requires 0 <= i < |xs| => Meaning(xs[i]))
  }

  // ---- The stack machine ----------------------------------------------------------------------------------------

  /** push_num; none stands for a failed assertion. */
  function PushNum(stack: seq<Token>, v: int): Option<seq<Token>> {
    var n := |stack|;
    if n == 0 || stack[n - 1] == Left then Some(stack + [Num(v)])
    else if stack[n - 1] != Plus && stack[n - 1] != Minus then None
    else
      var sign := if stack[n - 1] == Plus then 1 else -1;
      if 1 < n && stack[n - 2].Num? then Some(stack[..n - 2] + [Num(stack[n - 2].v + sign * v)])
      else Some(stack[..n - 1] + [Num(sign * v)])
  }

  function PushRight(stack: seq<Token>): Option<seq<Token>> {
    var n := |stack|;
    if n < 2 || !stack[n - 1].Num? || stack[n - 2] != Left then None else PushNum(stack[..n - 2], stack[n - 1].v)
  }

  function Push(stack: seq<Token>, t: Token): Option<seq<Token>> {
    match t
    case Num(v) => PushNum(stack, v)
    case Right => PushRight(stack)
    case _ => Some(stack + [t])
  }

  function Run(stack: seq<Token>, tokens: seq<Token>): Option<seq<Token>>
    decreases |tokens|
  {
    if tokens == [] then Some(stack)
    else match Push(stack, tokens[0])
      case None => None
      case Some(next) => Run(next, tokens[1..])
  }

  lemma {:induction false} RunConcat(stack: seq<Token>, a: seq<Token>, b: seq<Token>)
    ensures Run(stack, a + b) == match Run(stack, a) case None => None case Some(next) => Run(next, b)
    decreases |a|
  {
    if a == [] {
      assert a + b == b;
    } else {
      assert (a + b)[1..] == a[1..] + b;
      match Push(stack, a[0])
      case None =>
      case Some(next) => RunConcat(next, a[1..], b);
    }
  }

  lemma RunOne(stack: seq<Token>, t: Token)
    ensures Run(stack, [t]) == Push(stack, t)
  {
    assert [t][1..] == [];
  }

  lemma MeaningsConcat(a: seq<Lexeme>, b: seq<Lexeme>)
    requires LexemesOk(a) && LexemesOk(b)
    ensures LexemesOk(a + b) && Meanings(a + b) == Meanings(a) + Meanings(b)
  {}

  /** Where a sum may begin. */
  predicate Opens(stack: seq<Token>) { stack == [] || stack[|stack| - 1] == Left }

  /** Where an operand may follow. */
  predicate Awaits(stack: seq<Token>) { Opens(stack) || stack[|stack| - 1] == Plus || stack[|stack| - 1] == Minus }

  /** Running through the parentheses around a sum comes down to pushing its value. */
  lemma RunGroup(stack: seq<Token>, inner: seq<Lexeme>, v: int)
    requires Awaits(stack) && LexemesOk(inner)
    requires Run(stack + [Left], Meanings(inner)) == Some(stack + [Left] + [Num(v)])
    ensures var xs := [Symbol(Left)] + inner + [Symbol(Right)];
      LexemesOk(xs) && Run(stack, Meanings(xs)) == PushNum(stack, v)
  {
    hide Run, Meanings;
    var left, right := [Symbol(Left)], [Symbol(Right)];
    MeaningsConcat(left, inner);
    MeaningsConcat(left + inner, right);
    MeaningOfSymbol(Left);
    MeaningOfSymbol(Right);
    RunOne(stack, Left);
    RunConcat(stack, [Left], Meanings(inner));
    RunConcat(stack, [Left] + Meanings(inner), [Right]);
    var top := stack + [Left] + [Num(v)];
    RunOne(top, Right);
    assert top[..|top| - 2] == stack;
  }

  lemma RunOperand(stack: seq<Token>, e: Expr)
    requires Writable(e) && Awaits(stack)
    ensures Run(stack, Meanings(Operand(e))) == PushNum(stack, Value(e))
    decreases e, 1
  {
    if e.Number? {
      assert Meanings(Written(e)) == [Num(Value(e))];
      RunOne(stack, Num(Value(e)));
    } else if e.Group? {
      RunSum(stack + [Left], e.e);
      RunGroup(stack, Written(e.e), Value(e.e));
    } else {
      RunSum(stack + [Left], e);
      RunGroup(stack, Written(e), Value(e));
    }
  }

  /** A minus with nothing before it counts from 0. */
  lemma RunNegate(stack: seq<Token>, e: Expr)
    requires Opens(stack) && Writable(e)
    requires Run(stack + [Minus], Meanings(Operand(e))) == PushNum(stack + [Minus], Value(e))
    ensures var xs := [Symbol(Minus)] + Operand(e);
      LexemesOk(xs) && Run(stack, Meanings(xs)) == Some(stack + [Num(-Value(e))])
  {
    hide Run, Meanings, Operand;
    var minus := [Symbol(Minus)];
    MeaningsConcat(minus, Operand(e));
    MeaningOfSymbol(Minus);
    RunOne(stack, Minus);
    RunConcat(stack, [Minus], Meanings(Operand(e)));
    assert (stack + [Minus])[..|stack|] == stack;
  }

  lemma RunBinary(stack: seq<Token>, l: Expr, op: Token, r: Expr)
    requires Writable(l) && Writable(r) && (op == Plus || op == Minus)
    requires Run(stack, Meanings(Written(l))) == Some(stack + [Num(Value(l))])
    requires var mid := stack + [Num(Value(l))] + [op];
      Run(mid, Meanings(Operand(r))) == PushNum(mid, Value(r))
    ensures var xs := Written(l) + ([Symbol(op)] + Operand(r));
      LexemesOk(xs) && Run(stack, Meanings(xs)) == Some(stack + [Num(if op == Plus then Value(l) + Value(r) else Value(l) - Value(r))])
  {
    hide Run, PushNum, Meanings, Written, Operand;
    var sign := [Symbol(op)];
    MeaningsConcat(sign, Operand(r));
    MeaningsConcat(Written(l), sign + Operand(r));
    MeaningOfSymbol(op);
    RunConcat(stack, Meanings(Written(l)), Meanings(sign + Operand(r)));
    var top := stack + [Num(Value(l))];
    RunOne(top, op);
    RunConcat(top, [op], Meanings(Operand(r)));
    PushSecond(stack, Value(l), op, Value(r));
  }

  lemma MeaningOfSymbol(t: Token)
    requires !t.Num?
    ensures LexemesOk([Symbol(t)]) && Meanings([Symbol(t)]) == [t]
  {}

  lemma PushSecond(stack: seq<Token>, a: int, op: Token, b: int)
    requires op == Plus || op == Minus
    ensures PushNum(stack + [Num(a)] + [op], b) == Some(stack + [Num(if op == Plus then a + b else a - b)])
  {
    assert (stack + [Num(a)] + [op])[..|stack|] == stack;
  }

  lemma PushOpening(stack: seq<Token>, v: int)
    requires Opens(stack)
    ensures PushNum(stack, v) == Some(stack + [Num(v)])
  {}

  lemma RunNumber(stack: seq<Token>, digits: string)
    requires Numeral(digits) && Opens(stack)
    ensures var xs := [Digits(digits)]; LexemesOk(xs) && Run(stack, Meanings(xs)) == Some(stack + [Num(DecimalValue(digits))])
  {
    assert Meanings([Digits(digits)]) == [Num(DecimalValue(digits))];
    RunOne(stack, Num(DecimalValue(digits)));
  }

  /** Running through a written sum pushes its value. */
  lemma {:induction false} RunSum(stack: seq<Token>, e: Expr)
    requires Writable(e) && Opens(stack)
    ensures Run(stack, Meanings(Written(e))) == Some(stack + [Num(Value(e))])
    decreases e, 0
  {
    hide Run, Push, PushNum, Meanings, DecimalValue;
    match e
    case Number(digits) =>
      RunNumber(stack, digits);
    case Group(inner) =>
      RunSum(stack + [Left], inner);
      RunGroup(stack, Written(inner), Value(inner));
      PushOpening(stack, Value(inner));
    case Negate(x) =>
      RunOperand(stack + [Minus], x);
      RunNegate(stack, x);
    case Add(l, r) =>
      RunSum(stack, l);
      RunOperand(stack + [Num(Value(l))] + [Plus], r);
      RunBinary(stack, l, Plus, r);
    case Subtract(l, r) =>
      RunSum(stack, l);
      RunOperand(stack + [Num(Value(l))] + [Minus], r);
      RunBinary(stack, l, Minus, r);
  }

  // ---- Text -----------------------------------------------------------------------------------------------------

  function SymbolText(t: Token): string
    requires !t.Num?
  {
    match t case Left => "(" case Right => ")" case Plus => "+" case Minus => "-"
  }

  function Text(x: Lexeme): string
    requires LexemeOk(x)
  {
    match x case Digits(digits) => digits case Symbol(token) => SymbolText(token)
  }

  function Spaces(n: nat): string { seq(n, _ => ' ') }

  /** The lexemes with `gaps[i]` spaces before the i-th, and the last gap at the end. */
  function Render(xs: seq<Lexeme>, gaps: seq<nat>): string
    requires LexemesOk(xs) && |gaps| == |xs| + 1
  {
    if xs == [] then Spaces(gaps[0])
    else Spaces(gaps[0]) + (Text(xs[0]) + Render(xs[1..], gaps[1..]))
  }

  /** Two numbers are not written next to each other. */
  predicate Alternates(xs: seq<Lexeme>) { forall i :: 0 <= i < |xs| - 1 ==> xs[i].Digits? ==> !xs[i + 1].Digits? }

  function SymbolOf(c: char): Option<Token> {
    if c == '(' then Some(Left) else if c == ')' then Some(Right)
    else if c == '+' then Some(Plus) else if c == '-' then Some(Minus) else None
  }

  /** Where the digits that `s` begins with end. */
  function DigitsEnd(s: string): (e: nat)
    ensures e <= |s| && (forall i :: 0 <= i < e ==> IsDigit(s[i])) && (e < |s| ==> !IsDigit(s[e]))
  {
    if s == "" || !IsDigit(s[0]) then 0 else 1 + DigitsEnd(s[1..])
  }

  function Prepend(t: Token, rest: Option<seq<Token>>): Option<seq<Token>> {
    match rest case None => None case Some(ts) => Some([t] + ts)
  }

  /** The tokens of a text; none if it has a character that is in no token. */
  function Scan(s: string): Option<seq<Token>>
    decreases |s|
  {
    if s == "" then Some([])
    else if s[0] == ' ' then Scan(s[1..])
    else if IsDigit(s[0]) then Prepend(Num(DecimalValue(s[..DigitsEnd(s)])), Scan(s[DigitsEnd(s)..]))
    else match SymbolOf(s[0])
      case None => None
      case Some(t) => Prepend(t, Scan(s[1..]))
  }

  lemma {:induction false} ScanSpaces(n: nat, s: string)
    ensures Scan(Spaces(n) + s) == Scan(s)
  {
    if n == 0 {
      assert Spaces(0) + s == s;
    } else {
      assert (Spaces(n) + s)[1..] == Spaces(n - 1) + s;
      ScanSpaces(n - 1, s);
    }
  }

  lemma {:induction false} DigitsEndConcat(digits: string, s: string)
    requires (forall i :: 0 <= i < |digits| ==> IsDigit(digits[i])) && (s != "" ==> !IsDigit(s[0]))
    ensures DigitsEnd(digits + s) == |digits|
  {
    if digits == "" {
      assert digits + s == s;
    } else {
      assert (digits + s)[1..] == digits[1..] + s;
      DigitsEndConcat(digits[1..], s);
    }
  }

  lemma RenderStarts(xs: seq<Lexeme>, gaps: seq<nat>)
    requires LexemesOk(xs) && |gaps| == |xs| + 1 && (xs != [] ==> !xs[0].Digits?)
    ensures Render(xs, gaps) != "" ==> !IsDigit(Render(xs, gaps)[0])
  {}

  /** Scanning reads back what was written, with any spacing. */
  lemma {:induction false} ScanRender(xs: seq<Lexeme>, gaps: seq<nat>)
    requires LexemesOk(xs) && |gaps| == |xs| + 1 && Alternates(xs)
    ensures Scan(Render(xs, gaps)) == Some(Meanings(xs))
    decreases |xs|
  {
    if xs == [] {
      assert Spaces(gaps[0]) + "" == Spaces(gaps[0]);
      ScanSpaces(gaps[0], "");
    } else {
      var rest := Render(xs[1..], gaps[1..]);
      ScanSpaces(gaps[0], Text(xs[0]) + rest);
      ScanRender(xs[1..], gaps[1..]);
      if xs[0].Digits? { RenderStarts(xs[1..], gaps[1..]); }
      ScanFirst(xs[0], rest);
      hide Scan, Meaning, Text;
      assert Meanings(xs) == [Meaning(xs[0])] + Meanings(xs[1..]);
    }
  }

  lemma ScanFirst(x: Lexeme, rest: string)
    requires LexemeOk(x) && (x.Digits? && rest != "" ==> !IsDigit(rest[0]))
    ensures Scan(Text(x) + rest) == Prepend(Meaning(x), Scan(rest))
  {
    if x.Digits? { ScanDigits(x.digits, rest); } else { ScanOne(x.token, rest); }
  }

  lemma ScanDigits(digits: string, rest: string)
    requires Numeral(digits) && (rest != "" ==> !IsDigit(rest[0]))
    ensures Scan(digits + rest) == Prepend(Num(DecimalValue(digits)), Scan(rest))
  {
    var s := digits + rest;
    DigitsEndConcat(digits, rest);
    assert s[..|digits|] == digits && s[|digits|..] == rest;
    hide DigitsEnd, DecimalValue;
    assert s[0] == digits[0];
  }

  lemma ScanOne(t: Token, rest: string)
    requires !t.Num?
    ensures Scan(SymbolText(t) + rest) == Prepend(t, Scan(rest))
  {
    hide DigitsEnd, DecimalValue;
    var s := SymbolText(t) + rest;
    assert s[0] == SymbolText(t)[0] && s[1..] == rest;
  }

  lemma AlternatesConcat(a: seq<Lexeme>, b: seq<Lexeme>)
    requires Alternates(a) && Alternates(b) && a != [] && b != [] && !(a[|a| - 1].Digits? && b[0].Digits?)
    ensures Alternates(a + b)
  {
    forall i | 0 <= i < |a + b| - 1 && (a + b)[i].Digits? ensures !(a + b)[i + 1].Digits? {
      if i < |a| - 1 { assert a[i].Digits?; } else if i >= |a| { assert b[i - |a|].Digits?; }
    }
  }

  lemma GroupAlternates(inner: seq<Lexeme>)
    requires Alternates(inner) && inner != []
    ensures Alternates([Symbol(Left)] + inner + [Symbol(Right)])
  {
    AlternatesConcat([Symbol(Left)], inner);
    AlternatesConcat([Symbol(Left)] + inner, [Symbol(Right)]);
  }

  lemma OperandAlternates(e: Expr)
    ensures Operand(e) != [] && Alternates(Operand(e))
    decreases e, 1
  {
    WrittenAlternates(e);
    GroupAlternates(Written(e));
  }

  lemma {:induction false} WrittenAlternates(e: Expr)
    ensures Written(e) != [] && Alternates(Written(e))
    decreases e, 0
  {
    match e
    case Number(digits) =>
    case Group(inner) =>
      WrittenAlternates(inner);
      GroupAlternates(Written(inner));
    case Negate(x) =>
      OperandAlternates(x);
      AlternatesConcat([Symbol(Minus)], Operand(x));
    case Add(l, r) =>
      WrittenAlternates(l);
      OperandAlternates(r);
      AlternatesConcat([Symbol(Plus)], Operand(r));
      AlternatesConcat(Written(l), [Symbol(Plus)] + Operand(r));
    case Subtract(l, r) =>
      WrittenAlternates(l);
      OperandAlternates(r);
      AlternatesConcat([Symbol(Minus)], Operand(r));
      AlternatesConcat(Written(l), [Symbol(Minus)] + Operand(r));
  }

  // ---- The program ----------------------------------------------------------------------------------------------

  lemma ScanBlank(s: string, p: nat)
    requires p < |s| && s[p] == ' '
    ensures Scan(s[p..]) == Scan(s[p + 1..])
  {
    assert s[p..][1..] == s[p + 1..];
  }

  lemma ScanNumber(s: string, p: nat, e: nat)
    requires p < e <= |s| && (forall i :: p <= i < e ==> IsDigit(s[i])) && (e < |s| ==> !IsDigit(s[e]))
    ensures Numeral(s[p..e]) && Scan(s[p..]) == Prepend(Num(DecimalValue(s[p..e])), Scan(s[e..]))
  {
    DigitsEndConcat(s[p..e], s[e..]);
    assert s[p..] == s[p..e] + s[e..];
  }

  lemma ScanSymbol(s: string, p: nat)
    requires p < |s| && s[p] != ' ' && !IsDigit(s[p])
    ensures Scan(s[p..]) == match SymbolOf(s[p]) case None => None case Some(t) => Prepend(t, Scan(s[p + 1..]))
  {
    assert s[p..][1..] == s[p + 1..];
  }

  lemma ScanEnd(s: string)
    ensures Scan(s[|s|..]) == Some([])
  {}

  /** gen_tokens; none stands for a character that TokenTypeMap lacks. */
  method GenTokens(s: string) returns (r: Option<seq<Token>>)
    ensures r == Scan(s)
  {
    hide Scan, DecimalValue;
    var p := 0;
    var tokens: seq<Token> := [];
    PrependNone(Scan(s));
    assert s[0..] == s;
    while p < |s|
      invariant p <= |s|
      invariant Scan(s) == PrependAll(tokens, Scan(s[p..]))
    {
      while p < |s| && s[p] == ' '
        invariant p <= |s| && Scan(s) == PrependAll(tokens, Scan(s[p..]))
      {
        ScanBlank(s, p);
        p := p + 1;
      }
      if p < |s| {
        var e := p;
        while e < |s| && IsDigit(s[e])
          invariant p <= e <= |s| && forall i :: p <= i < e ==> IsDigit(s[i])
        {
          e := e + 1;
        }
        if e > p {
          ScanNumber(s, p, e);
          var t := Num(DecimalValue(s[p..e]));
          PrependLast(tokens, t, Scan(s[e..]));
          tokens := tokens + [t];
          p := e;
        } else {
          ScanSymbol(s, p);
          match SymbolOf(s[p])
          case None => return None;
          case Some(t) =>
            PrependLast(tokens, t, Scan(s[p + 1..]));
            tokens := tokens + [t];
            p := p + 1;
        }
      }
    }
    ScanEnd(s);
    assert tokens + [] == tokens;
    r := Some(tokens);
  }

  function PrependAll(ts: seq<Token>, rest: Option<seq<Token>>): Option<seq<Token>> {
    match rest case None => None case Some(more) => Some(ts + more)
  }

  lemma PrependNone(rest: Option<seq<Token>>)
    ensures PrependAll([], rest) == rest
  {
    if rest.Some? { assert [] + rest.value == rest.value; }
  }

  lemma PrependLast(ts: seq<Token>, t: Token, rest: Option<seq<Token>>)
    ensures PrependAll(ts, Prepend(t, rest)) == PrependAll(ts + [t], rest)
  {
    if rest.Some? { assert ts + ([t] + rest.value) == ts + [t] + rest.value; }
  }

  /** A written tree, however it is spaced, gives its value; so sums and differences of numbers in decimal are right. */
  method Calculate(s: string) returns (r: Option<int>)
    ensures forall e: Expr, gaps: seq<nat> :: Writable(e) && |gaps| == |Written(e)| + 1 && s == Render(Written(e), gaps) ==> r == Some(Value(e))
    ensures forall e: Expr :: Writable(e) && s == Plain(e) ==> r == Some(Value(e))
    ensures forall m: nat, n: nat :: s == Decimal(m) + ("+" + Decimal(n)) ==> r == Some(m + n)
    ensures forall m: nat, n: nat :: s == Decimal(m) + ("-" + Decimal(n)) ==> r == Some(m - n)
    ensures forall n: nat :: s == "-" + Decimal(n) ==> r == Some(0 - n)
    ensures forall k: nat, m: nat, n: nat :: s == Decimal(k) + ("-" + ("(" + (Decimal(m) + ("-" + Decimal(n))) + ")")) ==> r == Some(k - (m - n))
  {
    hide Plain, Value, Writable, Decimal, Written, Render, Run, Scan, Push;
    var tokens := GenTokens(s);
    if tokens == None {
      WrittenIsRead(s, None);
      SumsAreRead(s, None);
      return None;
    }
    var stack: seq<Token> := [];
    var i := 0;
    RunNothing([]);
    assert tokens.value[0..] == tokens.value;
    while i < |tokens.value|
      invariant i <= |tokens.value| && Run([], tokens.value) == Run(stack, tokens.value[i..])
    {
      var next := Push(stack, tokens.value[i]);
      RunFirst(stack, tokens.value[i..]);
      assert tokens.value[i..][1..] == tokens.value[i + 1..];
      if next == None {
        WrittenIsRead(s, None);
        SumsAreRead(s, None);
        return None;
      }
      stack := next.value;
      i := i + 1;
    }
    assert tokens.value[i..] == [];
    RunNothing(stack);
    WrittenIsRead(s, Some(stack));
    SumsAreRead(s, OnlyNumber(Some(stack)));
    if |stack| != 1 || !stack[0].Num? { return None; }
    r := Some(stack[0].v);
  }

  lemma RunNothing(stack: seq<Token>)
    ensures Run(stack, []) == Some(stack)
  {}

  lemma RunFirst(stack: seq<Token>, tokens: seq<Token>)
    requires tokens != []
    ensures Run(stack, tokens) == match Push(stack, tokens[0]) case None => None case Some(next) => Run(next, tokens[1..])
  {}

  /** The number that a stack stands for. */
  function OnlyNumber(stack: Option<seq<Token>>): Option<int> {
    if stack.Some? && |stack.value| == 1 && stack.value[0].Num? then Some(stack.value[0].v) else None
  }

  /** What is on the stack after reading a written tree. */
  lemma WrittenIsRead(s: string, stack: Option<seq<Token>>)
    requires stack == match Scan(s) case None => None case Some(tokens) => Run([], tokens)
    ensures forall e: Expr, gaps: seq<nat> :: Writable(e) && |gaps| == |Written(e)| + 1 && s == Render(Written(e), gaps) ==>
      OnlyNumber(stack) == Some(Value(e))
    ensures ReadsPlain(s, OnlyNumber(stack))
  {
    hide Plain, Value, Writable, Written, Render, Run, Scan;
    forall e: Expr, gaps: seq<nat> | Writable(e) && |gaps| == |Written(e)| + 1 && s == Render(Written(e), gaps)
      ensures OnlyNumber(stack) == Some(Value(e))
    {
      WrittenAlternates(e);
      ScanRender(Written(e), gaps);
      RunSum([], e);
      assert [] + [Num(Value(e))] == [Num(Value(e))];
    }
    forall e: Expr | Writable(e) && s == Plain(e) ensures OnlyNumber(stack) == Some(Value(e)) { RenderPlain(e); }
  }

  /** `r` is right for every tree written without spaces. */
  ghost predicate ReadsPlain(s: string, r: Option<int>) {
    forall e: Expr :: Writable(e) && s == Plain(e) ==> r == Some(Value(e))
  }

  lemma TreeIsRead(s: string, r: Option<int>, e: Expr)
    requires ReadsPlain(s, r) && Writable(e) && Plain(e) == s
    ensures r == Some(Value(e))
  {}

  /** So sums and differences of numbers come out right. */
  lemma SumsAreRead(s: string, r: Option<int>)
    requires ReadsPlain(s, r)
    ensures forall m: nat, n: nat :: s == Decimal(m) + ("+" + Decimal(n)) ==> r == Some(m + n)
    ensures forall m: nat, n: nat :: s == Decimal(m) + ("-" + Decimal(n)) ==> r == Some(m - n)
    ensures forall n: nat :: s == "-" + Decimal(n) ==> r == Some(0 - n)
    ensures forall k: nat, m: nat, n: nat :: s == Decimal(k) + ("-" + ("(" + (Decimal(m) + ("-" + Decimal(n))) + ")")) ==> r == Some(k - (m - n))
  {
    hide ReadsPlain, Plain, Value, Writable, Decimal, Numbered;
    forall m: nat, n: nat | s == Decimal(m) + ("+" + Decimal(n)) ensures r == Some(m + n) {
      SumWritten(m, n);
      TreeIsRead(s, r, Add(Numbered(m), Numbered(n)));
    }
    forall m: nat, n: nat | s == Decimal(m) + ("-" + Decimal(n)) ensures r == Some(m - n) {
      DifferenceWritten(m, n);
      TreeIsRead(s, r, Subtract(Numbered(m), Numbered(n)));
    }
    forall n: nat | s == "-" + Decimal(n) ensures r == Some(0 - n) {
      NegativeWritten(n);
      TreeIsRead(s, r, Negate(Numbered(n)));
    }
    forall k: nat, m: nat, n: nat | s == Decimal(k) + ("-" + ("(" + (Decimal(m) + ("-" + Decimal(n))) + ")")) ensures r == Some(k - (m - n)) {
      NestedWritten(k, m, n);
      TreeIsRead(s, r, Subtract(Numbered(k), Subtract(Numbered(m), Numbered(n))));
    }
  }

  // ---- Numbers and characters -------------------------------------------------------------------------------------

  predicate AllDigits(s: string) { forall i :: 0 <= i < |s| ==> IsDigit(s[i]) }

  function Power10(n: nat): nat { if n == 0 then 1 else 10 * Power10(n - 1) }

  /** A digit counts ten times as much for every digit after it. */
  lemma {:induction false} DecimalConcat(a: string, b: string)
    requires AllDigits(a) && AllDigits(b)
    ensures AllDigits(a + b) && DecimalValue(a + b) == DecimalValue(a) * Power10(|b|) + DecimalValue(b)
    decreases |b|
  {
    if b == "" {
      assert a + b == a;
    } else {
      var n, c := |b| - 1, b[|b| - 1];
      DecimalConcat(a, b[..n]);
      assert a + b == a + b[..n] + [c] && b == b[..n] + [c];
      LastDigit(a + b[..n], c);
      LastDigit(b[..n], c);
      TenTimes(DecimalValue(a), Power10(n));
    }
  }

  lemma LastDigit(a: string, c: char)
    requires AllDigits(a) && IsDigit(c)
    ensures AllDigits(a + [c]) && DecimalValue(a + [c]) == 10 * DecimalValue(a) + (c as int - '0' as int)
  {
    assert (a + [c])[..|a|] == a;
  }

  lemma TenTimes(a: nat, p: nat)
    ensures a * (10 * p) == 10 * (a * p)
  {}

  /** How a number is written, the most significant digit first. */
  function Decimal(n: nat): (s: string)
    ensures s != "" && AllDigits(s)
  {
    if n < 10 then ["0123456789"[n]] else Decimal(n / 10) + ["0123456789"[n % 10]]
  }

  /** Reading a written number gives the number. */
  lemma {:induction false} DecimalReadsBack(n: nat)
    ensures DecimalValue(Decimal(n)) == n
  {
    OneDigit(n % 10);
    if 10 <= n {
      DecimalReadsBack(n / 10);
      DecimalConcat(Decimal(n / 10), ["0123456789"[n % 10]]);
      assert Power10(1) == 10 * Power10(0);
    }
  }

  lemma OneDigit(d: nat)
    requires d < 10
    ensures AllDigits(["0123456789"[d]]) && DecimalValue(["0123456789"[d]]) == d
  {
    var s := ["0123456789"[d]];
    assert s[..|s| - 1] == "" && DecimalValue("") == 0;
  }

  function NoGaps(n: nat): seq<nat> { seq(n, _ => 0) }

  function Bare(xs: seq<Lexeme>): string
    requires LexemesOk(xs)
  {
    Render(xs, NoGaps(|xs| + 1))
  }

  lemma BareNext(xs: seq<Lexeme>)
    requires LexemesOk(xs)
    ensures xs == [] ==> Bare(xs) == ""
    ensures xs != [] ==> Bare(xs) == Text(xs[0]) + Bare(xs[1..])
  {
    if xs != [] { assert NoGaps(|xs| + 1)[1..] == NoGaps(|xs|); }
  }

  lemma {:induction false} BareConcat(a: seq<Lexeme>, b: seq<Lexeme>)
    requires LexemesOk(a) && LexemesOk(b)
    ensures LexemesOk(a + b) && Bare(a + b) == Bare(a) + Bare(b)
    decreases |a|
  {
    MeaningsConcat(a, b);
    BareNext(a);
    BareNext(a + b);
    hide Bare, Text, LexemeOk, Meanings;
    if a == [] {
      assert a + b == b;
    } else {
      assert (a + b)[1..] == a[1..] + b && (a + b)[0] == a[0];
      BareConcat(a[1..], b);
      Associative(Text(a[0]), Bare(a[1..]), Bare(b));
    }
  }

  lemma Associative(a: string, b: string, c: string)
    ensures a + (b + c) == a + b + c
  {}

  lemma BareOne(x: Lexeme)
    requires LexemeOk(x)
    ensures Bare([x]) == Text(x)
  {
    BareNext([x]);
    BareNext([]);
    assert [x][1..] == [];
  }

  /** The right operand of an operator, character by character. */
  function PlainOperand(e: Expr): string
    decreases e, 1
  {
    if e.Number? || e.Group? then Plain(e) else "(" + Plain(e) + ")"
  }

  /** A tree without spaces, character by character. */
  function Plain(e: Expr): string
    decreases e, 0
  {
    match e
    case Number(digits) => digits
    case Group(e) => "(" + Plain(e) + ")"
    case Negate(e) => "-" + PlainOperand(e)
    case Add(l, r) => Plain(l) + ("+" + PlainOperand(r))
    case Subtract(l, r) => Plain(l) + ("-" + PlainOperand(r))
  }

  lemma BareOperand(e: Expr)
    requires Writable(e)
    ensures Bare(Operand(e)) == PlainOperand(e)
    decreases e, 1
  {
    RenderPlain(e);
    BareGroup(Written(e));
  }

  lemma BareGroup(xs: seq<Lexeme>)
    requires LexemesOk(xs)
    ensures var ys := [Symbol(Left)] + xs + [Symbol(Right)]; LexemesOk(ys) && Bare(ys) == "(" + Bare(xs) + ")"
  {
    hide Bare;
    BareOne(Symbol(Left));
    BareOne(Symbol(Right));
    BareConcat([Symbol(Left)], xs);
    BareConcat([Symbol(Left)] + xs, [Symbol(Right)]);
  }

  lemma BareBinary(l: Expr, op: Token, r: Expr)
    requires Writable(l) && Writable(r) && !op.Num?
    ensures var xs := Written(l) + ([Symbol(op)] + Operand(r));
      LexemesOk(xs) && Bare(xs) == Bare(Written(l)) + (SymbolText(op) + Bare(Operand(r)))
  {
    hide Bare, Written, Operand;
    BareOne(Symbol(op));
    BareConcat([Symbol(op)], Operand(r));
    BareConcat(Written(l), [Symbol(op)] + Operand(r));
  }

  /** Written without spaces, a tree is this text. */
  lemma {:induction false} RenderPlain(e: Expr)
    requires Writable(e)
    ensures Bare(Written(e)) == Plain(e)
    decreases e, 0
  {
    hide Bare;
    match e
    case Number(digits) =>
      BareOne(Digits(digits));
    case Group(inner) =>
      RenderPlain(inner);
      BareGroup(Written(inner));
    case Negate(x) =>
      BareOperand(x);
      BareOne(Symbol(Minus));
      BareConcat([Symbol(Minus)], Operand(x));
    case Add(l, r) =>
      RenderPlain(l);
      BareOperand(r);
      BareBinary(l, Plus, r);
    case Subtract(l, r) =>
      RenderPlain(l);
      BareOperand(r);
      BareBinary(l, Minus, r);
  }

  function Numbered(n: nat): Expr { Number(Decimal(n)) }

  /** Sums and differences of numbers, as they are written and what they are worth. */
  lemma SumWritten(m: nat, n: nat)
    ensures var e := Add(Numbered(m), Numbered(n));
      Writable(e) && Plain(e) == Decimal(m) + ("+" + Decimal(n)) && Value(e) == m + n
  {
    NumberWritten(m);
    NumberWritten(n);
    hide Decimal, Numbered;
  }

  lemma DifferenceWritten(m: nat, n: nat)
    ensures var e := Subtract(Numbered(m), Numbered(n));
      Writable(e) && Plain(e) == Decimal(m) + ("-" + Decimal(n)) && Value(e) == m - n
  {
    NumberWritten(m);
    NumberWritten(n);
    hide Decimal, Numbered;
  }

  lemma NegativeWritten(n: nat)
    ensures var e := Negate(Numbered(n)); Writable(e) && Plain(e) == "-" + Decimal(n) && Value(e) == 0 - n
  {
    NumberWritten(n);
    hide Decimal, Numbered;
  }

  lemma NestedWritten(k: nat, m: nat, n: nat)
    ensures var e := Subtract(Numbered(k), Subtract(Numbered(m), Numbered(n)));
      Writable(e) && Plain(e) == Decimal(k) + ("-" + ("(" + (Decimal(m) + ("-" + Decimal(n))) + ")")) && Value(e) == k - (m - n)
  {
    NumberWritten(k);
    DifferenceWritten(m, n);
    hide Decimal, Numbered;
    var inner := Subtract(Numbered(m), Numbered(n));
    assert PlainOperand(inner) == "(" + Plain(inner) + ")";
  }

  lemma NumberWritten(n: nat)
    ensures var e := Numbered(n); Writable(e) && Plain(e) == PlainOperand(e) == Decimal(n) && Value(e) == n
  {
    DecimalReadsBack(n);
  }
}
