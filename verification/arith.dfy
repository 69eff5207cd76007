/** ArithParser and CalcQuickPhraseProvider: a fused recursive-descent parser
    and evaluator for + - * / over numbers and parentheses.

    The value of a parse is kept as a term of an abstract numeric domain
    (`Num`): a literal as std::stod reads it, or an operation applied to two
    values. Every concrete number type (the source's double, or `real` via
    EvalReal below) is an interpretation of these terms, so what the parser
    computes is stated without modelling floating point. */
module Arith {
  import opened Common

  datatype Op = Add | Sub | Mul | Div

  datatype Num = Lit(token: string) | Bin(op: Op, left: Num, right: Num)

  /** What a parse step leaves behind: its value (None when it fails) and
      where the cursor stands afterwards. */
  datatype Parsed = Parsed(value: Option<Num>, pos: nat)

  predicate IsDigit(c: char)
  {
    '0' <= c <= '9'
  }

  /** input[i] on a std::string, where input[input.size()] is the NUL terminator. */
  function CharAt(s: string, i: nat): char
    requires i <= |s|
  {
    if i < |s| then s[i] else '\0'
  }

  /** The end of the number run starting at `p`: digits, and a '.' only while
      none has been seen (`decimal` says whether one has). */
  function ScanNumber(s: string, p: nat, decimal: bool): (q: nat)
    requires p <= |s|
    ensures p <= q <= |s|
    decreases |s| - p
  {
    if p < |s| && (IsDigit(s[p]) || (s[p] == '.' && !decimal)) then ScanNumber(s, p + 1, decimal || s[p] == '.')
    else p
  }

  /** std::stod accepts a run of digits with at most one '.' exactly when it
      holds a digit ("." alone throws). */
  predicate Convertible(token: string)
  {
    exists i :: 0 <= i < |token| && IsDigit(token[i])
  }

  /** factor -> '(' expr ')' | number */
  function FactorAt(s: string, p: nat): (r: Parsed)
    requires p <= |s|
    ensures p <= r.pos <= |s|
    ensures r.value.Some? ==> r.pos > p
    decreases |s| - p, 0
  {
    if p >= |s| then Parsed(None, p)
    else if s[p] == '(' then
      var e := ExprAt(s, p + 1);
      if e.value.None? || e.pos >= |s| || s[e.pos] != ')' then Parsed(None, e.pos)
      else Parsed(e.value, e.pos + 1)
    else
      var q := ScanNumber(s, p, false);
      if q == p then Parsed(None, p)
      else if Convertible(s[p..q]) then Parsed(Some(Lit(s[p..q])), q)
      else Parsed(None, q)
  }

  /** term -> factor (('*' | '/') factor)* */
  function TermAt(s: string, p: nat): (r: Parsed)
    requires p <= |s|
    ensures p <= r.pos <= |s|
    ensures r.value.Some? ==> r.pos > p
    decreases |s| - p, 1
  {
    var f := FactorAt(s, p);
    if f.value.None? then f else TermRest(s, f.pos, f.value.value)
  }

  /** The loop of `term`, with `acc` the value so far. */
  function TermRest(s: string, p: nat, acc: Num): (r: Parsed)
    requires p <= |s|
    ensures p <= r.pos <= |s|
    decreases |s| - p, 1
  {
    if CharAt(s, p) == '*' || CharAt(s, p) == '/' then
      var f := FactorAt(s, p + 1);
      if f.value.None? then Parsed(None, f.pos)
      else TermRest(s, f.pos, Bin(if CharAt(s, p) == '*' then Mul else Div, acc, f.value.value))
    else Parsed(Some(acc), p)
  }

  /** expr -> term (('+' | '-') term)* */
  function ExprAt(s: string, p: nat): (r: Parsed)
    requires p <= |s|
    ensures p <= r.pos <= |s|
    ensures r.value.Some? ==> r.pos > p
    decreases |s| - p, 2
  {
    var t := TermAt(s, p);
    if t.value.None? then t else ExprRest(s, t.pos, t.value.value)
  }

  /** The loop of `expr`, with `acc` the value so far. */
  function ExprRest(s: string, p: nat, acc: Num): (r: Parsed)
    requires p <= |s|
    ensures p <= r.pos <= |s|
    decreases |s| - p, 2
  {
    if CharAt(s, p) == '+' || CharAt(s, p) == '-' then
      var t := TermAt(s, p + 1);
      if t.value.None? then Parsed(None, t.pos)
      else ExprRest(s, t.pos, Bin(if CharAt(s, p) == '+' then Add else Sub, acc, t.value.value))
    else Parsed(Some(acc), p)
  }

  /** What CalcQuickPhraseProvider computes: `expr` from the start of the
      input, whatever follows it. Every value it yields is a term whose
      literals are number tokens (so ParseShow applies to it). */
  function Evaluate(s: string): (r: Option<Num>)
    ensures r.Some? ==> WellFormed(r.value)
  {
    ExprWellFormed(s, 0);
    ExprAt(s, 0).value
  }

  /** A number token as the parser reads it: digits with at most one '.',
      holding at least one digit. */
  predicate NumberToken(t: string)
  {
    && |t| > 0
    && (forall i :: 0 <= i < |t| ==> IsDigit(t[i]) || t[i] == '.')
    && DotCount(t) <= 1
    && Convertible(t)
  }

  function DotCount(t: string): nat
  {
    if t == [] then 0 else (if t[0] == '.' then 1 else 0) + DotCount(t[1..])
  }

  /** A term whose literals are all number tokens. */
  predicate WellFormed(n: Num)
  {
    match n
    case Lit(t) => NumberToken(t)
    case Bin(_, l, r) => WellFormed(l) && WellFormed(r)
  }

  function OpChar(op: Op): char
  {
    match op
    case Add => '+'
    case Sub => '-'
    case Mul => '*'
    case Div => '/'
  }

  /** The fully parenthesised text of a term. */
  function Show(n: Num): string
  {
    match n
    case Lit(t) => t
    case Bin(op, l, r) => "(" + Show(l) + [OpChar(op)] + Show(r) + ")"
  }

  /** The parser only ever builds well-formed terms: each literal it reads
      is a number token. */
  lemma {:induction false} FactorWellFormed(s: string, p: nat)
    requires p <= |s|
    ensures FactorAt(s, p).value.Some? ==> WellFormed(FactorAt(s, p).value.value)
    decreases |s| - p, 0
  {
    if p < |s| {
      if s[p] == '(' {
        ExprWellFormed(s, p + 1);
      } else {
        var q := ScanNumber(s, p, false);
        ScanStopsAtSecondDot(s, p, false);
        assert forall i :: 0 <= i < q - p ==> s[p..q][i] == s[p + i];
      }
    }
  }

  lemma {:induction false} TermWellFormed(s: string, p: nat)
    requires p <= |s|
    ensures TermAt(s, p).value.Some? ==> WellFormed(TermAt(s, p).value.value)
    decreases |s| - p, 1
  {
    FactorWellFormed(s, p);
    var f := FactorAt(s, p);
    if f.value.Some? {
      TermRestWellFormed(s, f.pos, f.value.value);
    }
  }

  lemma {:induction false} TermRestWellFormed(s: string, p: nat, acc: Num)
    requires p <= |s| && WellFormed(acc)
    ensures TermRest(s, p, acc).value.Some? ==> WellFormed(TermRest(s, p, acc).value.value)
    decreases |s| - p, 1
  {
    if CharAt(s, p) == '*' || CharAt(s, p) == '/' {
      FactorWellFormed(s, p + 1);
      var f := FactorAt(s, p + 1);
      if f.value.Some? {
        TermRestWellFormed(s, f.pos, Bin(if CharAt(s, p) == '*' then Mul else Div, acc, f.value.value));
      }
    }
  }

  lemma {:induction false} ExprWellFormed(s: string, p: nat)
    requires p <= |s|
    ensures ExprAt(s, p).value.Some? ==> WellFormed(ExprAt(s, p).value.value)
    decreases |s| - p, 2
  {
    TermWellFormed(s, p);
    var t := TermAt(s, p);
    if t.value.Some? {
      ExprRestWellFormed(s, t.pos, t.value.value);
    }
  }

  lemma {:induction false} ExprRestWellFormed(s: string, p: nat, acc: Num)
    requires p <= |s| && WellFormed(acc)
    ensures ExprRest(s, p, acc).value.Some? ==> WellFormed(ExprRest(s, p, acc).value.value)
    decreases |s| - p, 2
  {
    if CharAt(s, p) == '+' || CharAt(s, p) == '-' {
      TermWellFormed(s, p + 1);
      var t := TermAt(s, p + 1);
      if t.value.Some? {
        ExprRestWellFormed(s, t.pos, Bin(if CharAt(s, p) == '+' then Add else Sub, acc, t.value.value));
      }
    }
  }

  /** A number token cannot continue at `q`. */
  predicate Boundary(s: string, q: nat)
    requires q <= |s|
  {
    q == |s| || (!IsDigit(s[q]) && s[q] != '.')
  }

  /** The number scan takes exactly a token that is followed by a boundary. */
  lemma {:induction false} ScanToken(s: string, p: nat, t: string, decimal: bool)
    requires p + |t| <= |s| && s[p..p + |t|] == t
    requires forall i :: 0 <= i < |t| ==> IsDigit(t[i]) || t[i] == '.'
    requires DotCount(t) + (if decimal then 1 else 0) <= 1
    requires Boundary(s, p + |t|)
    ensures ScanNumber(s, p, decimal) == p + |t|
    decreases |t|
  {
    if |t| > 0 {
      assert s[p] == t[0];
      assert s[p + 1..p + 1 + |t[1..]|] == t[1..];
      ScanToken(s, p + 1, t[1..], decimal || t[0] == '.');
    }
  }

  /** The number scan stops at the second '.': "1.2.3" yields "1.2". */
  lemma {:induction false} ScanStopsAtSecondDot(s: string, p: nat, decimal: bool)
    requires p <= |s|
    ensures var q := ScanNumber(s, p, decimal);
      && (forall k :: p <= k < q ==> IsDigit(s[k]) || s[k] == '.')
      && DotCount(s[p..q]) + (if decimal then 1 else 0) <= 1
      && (q == |s| || !(IsDigit(s[q]) || (s[q] == '.' && DotCount(s[p..q]) + (if decimal then 1 else 0) == 0)))
    decreases |s| - p
  {
    var q := ScanNumber(s, p, decimal);
    if p < |s| && (IsDigit(s[p]) || (s[p] == '.' && !decimal)) {
      ScanStopsAtSecondDot(s, p + 1, decimal || s[p] == '.');
      assert s[p..q] == [s[p]] + s[p + 1..q];
      assert s[p..q][1..] == s[p + 1..q];
    } else {
      assert s[p..q] == [];
    }
  }

  /** A parenthesised term, or a token, parses back to itself as a factor. */
  lemma {:induction false} FactorShow(s: string, p: nat, n: Num)
    requires WellFormed(n)
    requires p + |Show(n)| <= |s| && s[p..p + |Show(n)|] == Show(n)
    requires Boundary(s, p + |Show(n)|)
    ensures FactorAt(s, p) == Parsed(Some(n), p + |Show(n)|)
    decreases n, 1
  {
    match n
    case Lit(t) =>
      FactorToken(s, p, t);
    case Bin(op, l, r) =>
      ShowBinLayout(s, p, op, l, r);
      FactorShowBin(s, p, op, l, r, p + 1 + |Show(l)|, p + 2 + |Show(l)| + |Show(r)|);
  }

  /** The parenthesised case, stated on where the pieces lie. */
  lemma {:induction false} FactorShowBin(s: string, p: nat, op: Op, l: Num, r: Num, q1: nat, q2: nat)
    requires WellFormed(l) && WellFormed(r)
    requires q1 == p + 1 + |Show(l)| && q2 == q1 + 1 + |Show(r)| && q2 < |s|
    requires s[p] == '(' && s[q1] == OpChar(op) && s[q2] == ')'
    requires s[p + 1..q1] == Show(l) && Boundary(s, q1)
    requires s[q1 + 1..q2] == Show(r) && Boundary(s, q2)
    ensures FactorAt(s, p) == Parsed(Some(Bin(op, l, r)), q2 + 1)
    decreases Bin(op, l, r), 0
  {
    FactorShow(s, p + 1, l);
    FactorShow(s, q1 + 1, r);
    ParenthesisedFactor(s, p, op, l, r, q1, q2);
  }

  /** A number token followed by a boundary is one factor. */
  lemma FactorToken(s: string, p: nat, t: string)
    requires NumberToken(t)
    requires p + |t| <= |s| && s[p..p + |t|] == t
    requires Boundary(s, p + |t|)
    ensures FactorAt(s, p) == Parsed(Some(Lit(t)), p + |t|)
  {
    assert s[p] == t[0];
    ScanToken(s, p, t, false);
  }

  /** Where the pieces of a parenthesised term lie in the text, each piece
      followed by a character that ends a number token. */
  lemma ShowBinLayout(s: string, p: nat, op: Op, l: Num, r: Num)
    requires var n := Bin(op, l, r); p + |Show(n)| <= |s| && s[p..p + |Show(n)|] == Show(n)
    ensures var q1 := p + 1 + |Show(l)|; var q2 := q1 + 1 + |Show(r)|;
      && p + |Show(Bin(op, l, r))| == q2 + 1
      && s[p] == '(' && s[q1] == OpChar(op) && s[q2] == ')'
      && s[p + 1..q1] == Show(l) && Boundary(s, q1)
      && s[q1 + 1..q2] == Show(r) && Boundary(s, q2)
  {
    var L, R, c := Show(l), Show(r), OpChar(op);
    Wrapped(s, p, L, c, R);
    OperatorIsBoundary(s, p + 1 + |L|, op);
  }

  /** The same, for any two texts joined by a character inside parentheses. */
  lemma Wrapped(s: string, p: nat, L: string, c: char, R: string)
    requires p + |L| + |R| + 3 <= |s| && s[p..p + |L| + |R| + 3] == "(" + L + [c] + R + ")"
    ensures var q1 := p + 1 + |L|; var q2 := q1 + 1 + |R|;
      && s[p] == '('
      && s[p + 1..q1] == L
      && s[q1] == c
      && s[q1 + 1..q2] == R
      && s[q2] == ')'
  {
    var q1 := p + 1 + |L|;
    var q2 := q1 + 1 + |R|;
    var w := s[p..q2 + 1];
    assert w == "(" + L + [c] + R + ")";
    assert w[1..1 + |L|] == L;
    assert w[2 + |L|..2 + |L| + |R|] == R;
    SliceOfSlice(s, p, q2 + 1, 1, 1 + |L|);
    SliceOfSlice(s, p, q2 + 1, 2 + |L|, 2 + |L| + |R|);
    assert s[p] == w[0];
    assert s[q1] == w[1 + |L|];
    assert s[q2] == w[2 + |L| + |R|];
  }

  lemma SliceOfSlice(s: string, p: nat, e: nat, i: nat, j: nat)
    requires p <= e <= |s| && i <= j <= e - p
    ensures s[p..e][i..j] == s[p + i..p + j]
  {
    assert |s[p..e][i..j]| == |s[p + i..p + j]|;
    forall k | 0 <= k < j - i
      ensures s[p..e][i..j][k] == s[p + i..p + j][k]
    {
    }
  }

  /** '(' l op r ')' is one factor whose value is `l op r`, whatever the
      precedence of `op`. */
  lemma ParenthesisedFactor(s: string, p: nat, op: Op, l: Num, r: Num, q1: nat, q2: nat)
    requires p < q1 < q2 < |s|
    requires s[p] == '(' && s[q1] == OpChar(op) && s[q2] == ')'
    requires FactorAt(s, p + 1) == Parsed(Some(l), q1)
    requires FactorAt(s, q1 + 1) == Parsed(Some(r), q2)
    ensures FactorAt(s, p) == Parsed(Some(Bin(op, l, r)), q2 + 1)
  {
    var n := Bin(op, l, r);
    if op == Mul || op == Div {
      assert TermRest(s, q2, n) == Parsed(Some(n), q2);
      assert TermRest(s, q1, l) == TermRest(s, q2, n);
      assert TermAt(s, p + 1) == Parsed(Some(n), q2);
      assert ExprRest(s, q2, n) == Parsed(Some(n), q2);
    } else {
      assert TermRest(s, q1, l) == Parsed(Some(l), q1);
      assert TermAt(s, p + 1) == Parsed(Some(l), q1);
      assert TermRest(s, q2, r) == Parsed(Some(r), q2);
      assert TermAt(s, q1 + 1) == Parsed(Some(r), q2);
      assert ExprRest(s, q2, n) == Parsed(Some(n), q2);
      assert ExprRest(s, q1, l) == Parsed(Some(n), q2);
    }
    assert ExprAt(s, p + 1) == Parsed(Some(n), q2);
  }

  /** Round trip: the parser reads back every fully parenthesised term. */
  lemma ParseShow(n: Num)
    requires WellFormed(n)
    ensures Evaluate(Show(n)) == Some(n)
  {
    var s := Show(n);
    assert s[0..|s|] == s;
    FactorShow(s, 0, n);
    assert TermRest(s, |s|, n) == Parsed(Some(n), |s|);
    assert TermAt(s, 0) == Parsed(Some(n), |s|);
    assert ExprRest(s, |s|, n) == Parsed(Some(n), |s|);
    assert ExprAt(s, 0) == Parsed(Some(n), |s|);
  }

  /** Three factors in a row, the parse positions given. */
  predicate ThreeFactorsAt(s: string, a: Num, b: Num, c: Num, o1: Op, o2: Op, qa: nat, qb: nat)
  {
    && qa < qb < |s| && s[qa] == OpChar(o1) && s[qb] == OpChar(o2)
    && FactorAt(s, 0) == Parsed(Some(a), qa)
    && FactorAt(s, qa + 1) == Parsed(Some(b), qb)
    && FactorAt(s, qb + 1) == Parsed(Some(c), |s|)
  }

  /** Three printed terms joined by two operators are read as three factors. */
  lemma ThreeFactors(s: string, a: Num, b: Num, c: Num, o1: Op, o2: Op, qa: nat, qb: nat)
    requires WellFormed(a) && WellFormed(b) && WellFormed(c)
    requires qa == |Show(a)| && qb == qa + 1 + |Show(b)| && qb + 1 + |Show(c)| == |s|
    requires s[..qa] == Show(a) && s[qa] == OpChar(o1)
    requires s[qa + 1..qb] == Show(b) && s[qb] == OpChar(o2)
    requires s[qb + 1..] == Show(c)
    ensures ThreeFactorsAt(s, a, b, c, o1, o2, qa, qb)
  {
    OperatorIsBoundary(s, qa, o1);
    OperatorIsBoundary(s, qb, o2);
    FactorPrefix(s, qa, a);
    FactorSlice(s, qa + 1, qb, b);
    FactorSuffix(s, qb + 1, c);
    assert FactorAt(s, 0) == Parsed(Some(a), qa);
    assert FactorAt(s, qa + 1) == Parsed(Some(b), qb);
    assert FactorAt(s, qb + 1) == Parsed(Some(c), |s|);
  }

  /** A term's text at the start of the input, followed by a boundary, is the first factor. */
  lemma FactorPrefix(s: string, q: nat, n: Num)
    requires WellFormed(n)
    requires q == |Show(n)| <= |s| && s[..q] == Show(n)
    requires Boundary(s, q)
    ensures FactorAt(s, 0) == Parsed(Some(n), q)
  {
    assert s[0..q] == s[..q];
    FactorShow(s, 0, n);
  }

  /** A term's text that ends the input is one factor. */
  lemma FactorSuffix(s: string, p: nat, n: Num)
    requires WellFormed(n)
    requires p <= |s| && s[p..] == Show(n)
    ensures FactorAt(s, p) == Parsed(Some(n), |s|)
  {
    assert s[p..p + |Show(n)|] == s[p..];
    FactorShow(s, p, n);
  }

  /** No number token continues through an operator. */
  lemma OperatorIsBoundary(s: string, q: nat, o: Op)
    requires q < |s| && s[q] == OpChar(o)
    ensures Boundary(s, q)
  {
  }

  /** A term's text followed by a boundary is one factor. */
  lemma FactorSlice(s: string, p: nat, q: nat, n: Num)
    requires WellFormed(n)
    requires q == p + |Show(n)| <= |s| && s[p..q] == Show(n)
    requires Boundary(s, q)
    ensures FactorAt(s, p) == Parsed(Some(n), q)
  {
    FactorShow(s, p, n);
  }

  /** Three texts joined by two characters, cut back into their pieces. */
  lemma Joined(A: string, x: char, B: string, y: char, C: string)
    ensures var s := A + [x] + B + [y] + C;
      var qa := |A|; var qb := qa + 1 + |B|;
      && qb + 1 + |C| == |s|
      && s[..qa] == A && s[qa] == x
      && s[qa + 1..qb] == B && s[qb] == y
      && s[qb + 1..] == C
  {
  }

  /** A low-precedence operator followed by a high one: the second pair
      groups first. */
  lemma PrecedenceChain(s: string, a: Num, b: Num, c: Num, o1: Op, o2: Op, qa: nat, qb: nat)
    requires WellFormed(a) && WellFormed(b) && WellFormed(c)
    requires qa == |Show(a)| && qb == qa + 1 + |Show(b)| && qb + 1 + |Show(c)| == |s|
    requires s[..qa] == Show(a) && s[qa] == OpChar(o1)
    requires s[qa + 1..qb] == Show(b) && s[qb] == OpChar(o2)
    requires s[qb + 1..] == Show(c)
    requires o1 in {Add, Sub} && o2 in {Mul, Div}
    ensures ExprAt(s, 0) == Parsed(Some(Bin(o1, a, Bin(o2, b, c))), |s|)
    ensures Evaluate(s) == Some(Bin(o1, a, Bin(o2, b, c)))
  {
    ThreeFactors(s, a, b, c, o1, o2, qa, qb);
    var bc := Bin(o2, b, c);
    assert TermRest(s, |s|, bc) == Parsed(Some(bc), |s|);
    assert TermRest(s, qb, b) == Parsed(Some(bc), |s|);
    assert TermAt(s, qa + 1) == Parsed(Some(bc), |s|);
    assert TermRest(s, qa, a) == Parsed(Some(a), qa);
    assert TermAt(s, 0) == Parsed(Some(a), qa);
    assert ExprRest(s, |s|, Bin(o1, a, bc)) == Parsed(Some(Bin(o1, a, bc)), |s|);
    assert ExprRest(s, qa, a) == Parsed(Some(Bin(o1, a, bc)), |s|);
  }

  /** Two operators of one level: the first pair groups first. */
  lemma SameLevelChain(s: string, a: Num, b: Num, c: Num, o1: Op, o2: Op, qa: nat, qb: nat)
    requires WellFormed(a) && WellFormed(b) && WellFormed(c)
    requires qa == |Show(a)| && qb == qa + 1 + |Show(b)| && qb + 1 + |Show(c)| == |s|
    requires s[..qa] == Show(a) && s[qa] == OpChar(o1)
    requires s[qa + 1..qb] == Show(b) && s[qb] == OpChar(o2)
    requires s[qb + 1..] == Show(c)
    requires (o1 in {Add, Sub} && o2 in {Add, Sub}) || (o1 in {Mul, Div} && o2 in {Mul, Div})
    ensures ExprAt(s, 0) == Parsed(Some(Bin(o2, Bin(o1, a, b), c)), |s|)
    ensures Evaluate(s) == Some(Bin(o2, Bin(o1, a, b), c))
  {
    ThreeFactors(s, a, b, c, o1, o2, qa, qb);
    var ab := Bin(o1, a, b);
    var n := Bin(o2, ab, c);
    if o1 in {Add, Sub} {
      assert TermRest(s, qa, a) == Parsed(Some(a), qa);
      assert TermAt(s, 0) == Parsed(Some(a), qa);
      assert TermRest(s, qb, b) == Parsed(Some(b), qb);
      assert TermAt(s, qa + 1) == Parsed(Some(b), qb);
      assert TermRest(s, |s|, c) == Parsed(Some(c), |s|);
      assert TermAt(s, qb + 1) == Parsed(Some(c), |s|);
      assert ExprRest(s, |s|, n) == Parsed(Some(n), |s|);
      assert ExprRest(s, qb, ab) == Parsed(Some(n), |s|);
      assert ExprRest(s, qa, a) == Parsed(Some(n), |s|);
    } else {
      assert TermRest(s, |s|, n) == Parsed(Some(n), |s|);
      assert TermRest(s, qb, ab) == Parsed(Some(n), |s|);
      assert TermRest(s, qa, a) == Parsed(Some(n), |s|);
      assert TermAt(s, 0) == Parsed(Some(n), |s|);
      assert ExprRest(s, |s|, n) == Parsed(Some(n), |s|);
    }
  }

  /** '*' and '/' bind tighter than '+' and '-': x + y * z reads as x + (y * z). */
  lemma Precedence(a: Num, b: Num, c: Num, o1: Op, o2: Op)
    requires WellFormed(a) && WellFormed(b) && WellFormed(c)
    requires o1 in {Add, Sub} && o2 in {Mul, Div}
    ensures Evaluate(Show(a) + [OpChar(o1)] + Show(b) + [OpChar(o2)] + Show(c))
      == Some(Bin(o1, a, Bin(o2, b, c)))
  {
    var s := Show(a) + [OpChar(o1)] + Show(b) + [OpChar(o2)] + Show(c);
    Joined(Show(a), OpChar(o1), Show(b), OpChar(o2), Show(c));
    PrecedenceChain(s, a, b, c, o1, o2, |Show(a)|, |Show(a)| + 1 + |Show(b)|);
  }

  /** A high-precedence operator followed by a low one: the first pair
      groups first. */
  lemma HighLowChain(s: string, a: Num, b: Num, c: Num, o1: Op, o2: Op, qa: nat, qb: nat)
    requires WellFormed(a) && WellFormed(b) && WellFormed(c)
    requires qa == |Show(a)| && qb == qa + 1 + |Show(b)| && qb + 1 + |Show(c)| == |s|
    requires s[..qa] == Show(a) && s[qa] == OpChar(o1)
    requires s[qa + 1..qb] == Show(b) && s[qb] == OpChar(o2)
    requires s[qb + 1..] == Show(c)
    requires o1 in {Mul, Div} && o2 in {Add, Sub}
    ensures ExprAt(s, 0) == Parsed(Some(Bin(o2, Bin(o1, a, b), c)), |s|)
    ensures Evaluate(s) == Some(Bin(o2, Bin(o1, a, b), c))
  {
    ThreeFactors(s, a, b, c, o1, o2, qa, qb);
    var ab := Bin(o1, a, b);
    var n := Bin(o2, ab, c);
    assert TermRest(s, qb, ab) == Parsed(Some(ab), qb);
    assert TermRest(s, qa, a) == Parsed(Some(ab), qb);
    assert TermAt(s, 0) == Parsed(Some(ab), qb);
    assert TermRest(s, |s|, c) == Parsed(Some(c), |s|);
    assert TermAt(s, qb + 1) == Parsed(Some(c), |s|);
    assert ExprRest(s, |s|, n) == Parsed(Some(n), |s|);
    assert ExprRest(s, qb, ab) == Parsed(Some(n), |s|);
  }

  /** '*' and '/' bind tighter than '+' and '-' in the other order too:
      x * y + z reads as (x * y) + z. */
  lemma PrecedenceHighFirst(a: Num, b: Num, c: Num, o1: Op, o2: Op)
    requires WellFormed(a) && WellFormed(b) && WellFormed(c)
    requires o1 in {Mul, Div} && o2 in {Add, Sub}
    ensures Evaluate(Show(a) + [OpChar(o1)] + Show(b) + [OpChar(o2)] + Show(c))
      == Some(Bin(o2, Bin(o1, a, b), c))
  {
    var s := Show(a) + [OpChar(o1)] + Show(b) + [OpChar(o2)] + Show(c);
    Joined(Show(a), OpChar(o1), Show(b), OpChar(o2), Show(c));
    HighLowChain(s, a, b, c, o1, o2, |Show(a)|, |Show(a)| + 1 + |Show(b)|);
  }

  /** Operators of one level group to the left: x - y - z reads as (x - y) - z. */
  lemma LeftAssociative(a: Num, b: Num, c: Num, o1: Op, o2: Op)
    requires WellFormed(a) && WellFormed(b) && WellFormed(c)
    requires (o1 in {Add, Sub} && o2 in {Add, Sub}) || (o1 in {Mul, Div} && o2 in {Mul, Div})
    ensures Evaluate(Show(a) + [OpChar(o1)] + Show(b) + [OpChar(o2)] + Show(c))
      == Some(Bin(o2, Bin(o1, a, b), c))
  {
    var s := Show(a) + [OpChar(o1)] + Show(b) + [OpChar(o2)] + Show(c);
    Joined(Show(a), OpChar(o1), Show(b), OpChar(o2), Show(c));
    SameLevelChain(s, a, b, c, o1, o2, |Show(a)|, |Show(a)| + 1 + |Show(b)|);
  }

  /** Whatever follows a number token or a fully parenthesised term is
      ignored when it is not an operator, a digit or a '.': "2abc" and
      "1 + 2" both yield their first number. */
  lemma TrailingIgnored(n: Num, rest: string)
    requires WellFormed(n)
    requires rest == [] || (!IsDigit(rest[0]) && rest[0] !in "+-*/.")
    ensures Evaluate(Show(n) + rest) == Some(n)
  {
    var s := Show(n) + rest;
    var q := |Show(n)|;
    assert s[0..q] == Show(n);
    FactorShow(s, 0, n);
    assert TermRest(s, q, n) == Parsed(Some(n), q);
    assert TermAt(s, 0) == Parsed(Some(n), q);
    assert ExprRest(s, q, n) == Parsed(Some(n), q);
  }

  /** Input that cannot start a factor has no value: the empty string, a
      sign ("-1"), a letter, a leading space. */
  lemma NoFactorStart(s: string)
    requires s == [] || (s[0] != '(' && s[0] != '.' && !IsDigit(s[0]))
    ensures Evaluate(s) == None
  {
    if s != [] {
      assert ScanNumber(s, 0, false) == 0;
      assert FactorAt(s, 0).value == None;
      assert TermAt(s, 0).value == None;
    }
  }

  /** A lone '.' is scanned as a number but std::stod rejects it. */
  lemma LoneDotRejected(rest: string)
    requires rest == [] || (!IsDigit(rest[0]) && rest[0] != '.')
    ensures Evaluate("." + rest) == None
  {
    var s := "." + rest;
    assert ScanNumber(s, 1, true) == 1;
    assert s[0..1] == ".";
    assert !Convertible(".");
    assert FactorAt(s, 0) == Parsed(None, 1);
    assert TermAt(s, 0).value == None;
  }

  /** A number token or fully parenthesised term followed by one operator
      and nothing else ("1+") fails the whole parse. */
  lemma DanglingOperator(n: Num, op: Op)
    requires WellFormed(n)
    ensures Evaluate(Show(n) + [OpChar(op)]) == None
  {
    var s := Show(n) + [OpChar(op)];
    var q := |Show(n)|;
    assert s[0..q] == Show(n);
    FactorShow(s, 0, n);
    assert FactorAt(s, q + 1).value == None;
    if op in {Mul, Div} {
      assert TermRest(s, q, n).value == None;
      assert TermAt(s, 0).value == None;
    } else {
      assert TermRest(s, q, n) == Parsed(Some(n), q);
      assert TermAt(s, 0) == Parsed(Some(n), q);
      assert TermAt(s, q + 1).value == None;
      assert ExprRest(s, q, n).value == None;
    }
  }

  /** A '(' whose expression runs to the end of the input is never closed,
      so that factor fails. */
  lemma UnclosedAt(s: string, p: nat)
    requires p < |s| && s[p] == '(' && ExprAt(s, p + 1).pos == |s|
    ensures FactorAt(s, p).value == None
  {
  }

  /** Input that opens with a parenthesis it never closes fails the whole
      parse, whatever the parenthesis holds. */
  lemma UnclosedParenthesis(s: string)
    requires s != [] && s[0] == '(' && ExprAt(s, 1).pos == |s|
    ensures Evaluate(s) == None
  {
    UnclosedAt(s, 0);
    assert TermAt(s, 0).value == None;
  }

  /** In particular a '(' followed by one printed term and nothing else. */
  lemma UnclosedTerm(n: Num)
    requires WellFormed(n)
    ensures Evaluate("(" + Show(n)) == None
  {
    var s := "(" + Show(n);
    assert s[1..|s|] == Show(n);
    FactorShow(s, 1, n);
    assert TermRest(s, |s|, n) == Parsed(Some(n), |s|);
    assert TermAt(s, 1) == Parsed(Some(n), |s|);
    assert ExprRest(s, |s|, n) == Parsed(Some(n), |s|);
    UnclosedParenthesis(s);
  }

  /** "(1+2" has no value. */
  lemma UnclosedSumExample()
    ensures Evaluate("(1+2") == None
  {
    var s := "(1+2";
    assert ScanNumber(s, 1, false) == 2;
    assert s[1..2] == "1" && Convertible("1");
    assert FactorAt(s, 1) == Parsed(Some(Lit("1")), 2);
    assert TermAt(s, 1) == Parsed(Some(Lit("1")), 2);
    assert ScanNumber(s, 3, false) == 4;
    assert s[3..4] == "2" && Convertible("2");
    assert FactorAt(s, 3) == Parsed(Some(Lit("2")), 4);
    assert TermAt(s, 3) == Parsed(Some(Lit("2")), 4);
    assert ExprRest(s, 2, Lit("1")).pos == 4;
    UnclosedParenthesis(s);
  }

  /** The digits of a token read as one whole number, the '.' skipped. */
  function DigitsValue(t: string): nat
  {
    if t == [] then 0
    else if IsDigit(t[|t| - 1]) then DigitsValue(t[..|t| - 1]) * 10 + (t[|t| - 1] as int - '0' as int)
    else DigitsValue(t[..|t| - 1])
  }

  /** How many digits follow the '.' of a token. */
  function FracDigits(t: string): nat
  {
    if t == [] || t[|t| - 1] == '.' then 0
    else if DotCount(t) == 0 then 0
    else FracDigits(t[..|t| - 1]) + 1
  }

  function Pow10(k: nat): (r: nat)
    ensures r > 0
  {
    if k == 0 then 1 else 10 * Pow10(k - 1)
  }

  /** The exact value of a number token. */
  function TokenValue(t: string): real
  {
    DigitsValue(t) as real / Pow10(FracDigits(t)) as real
  }

  /** One operation over the reals; None for a division by zero. */
  function Apply(op: Op, x: real, y: real): Option<real>
  {
    match op
    case Add => Some(x + y)
    case Sub => Some(x - y)
    case Mul => Some(x * y)
    case Div => if y == 0.0 then None else Some(x / y)
  }

  /** A term read over the reals; None where a division by zero occurs. */
  function EvalReal(n: Num): Option<real>
  {
    match n
    case Lit(t) => Some(TokenValue(t))
    case Bin(op, l, r) =>
      var x, y := EvalReal(l), EvalReal(r);
      if x.None? || y.None? then None else Apply(op, x.value, y.value)
  }

  /** A one-digit token is well formed and worth its digit. */
  lemma Digit(d: string)
    requires |d| == 1 && IsDigit(d[0])
    ensures WellFormed(Lit(d))
    ensures EvalReal(Lit(d)) == Some((d[0] as int - '0' as int) as real)
  {
    assert d[1..] == [];
    assert DotCount(d) == 0;
    assert FracDigits(d) == 0;
    assert d[..0] == [];
    assert DigitsValue(d) == d[0] as int - '0' as int;
  }

  /** "1+2*3" reads as 1 + (2 * 3), worth 7. */
  lemma CalcPrecedenceExample()
    ensures Evaluate("1+2*3") == Some(Bin(Add, Lit("1"), Bin(Mul, Lit("2"), Lit("3"))))
    ensures EvalReal(Evaluate("1+2*3").value) == Some(7.0)
  {
    Digit("1");
    Digit("2");
    Digit("3");
    Precedence(Lit("1"), Lit("2"), Lit("3"), Add, Mul);
    assert Show(Lit("1")) + [OpChar(Add)] + Show(Lit("2")) + [OpChar(Mul)] + Show(Lit("3")) == "1+2*3";
  }

  /** "8-4-2" reads as (8 - 4) - 2, worth 2. */
  lemma CalcAssociativityExample()
    ensures Evaluate("8-4-2") == Some(Bin(Sub, Bin(Sub, Lit("8"), Lit("4")), Lit("2")))
    ensures EvalReal(Evaluate("8-4-2").value) == Some(2.0)
  {
    Digit("8");
    Digit("4");
    Digit("2");
    LeftAssociative(Lit("8"), Lit("4"), Lit("2"), Sub, Sub);
    assert Show(Lit("8")) + [OpChar(Sub)] + Show(Lit("4")) + [OpChar(Sub)] + Show(Lit("2")) == "8-4-2";
  }

  /** The number scan ends at a second '.': "1.2.3" yields 1.2 and the
      rest is ignored. */
  lemma SecondDotExample()
    ensures Evaluate("1.2.3") == Some(Lit("1.2"))
    ensures EvalReal(Lit("1.2")) == Some(1.2)
  {
    var s := "1.2.3";
    assert ScanNumber(s, 3, true) == 3;
    assert ScanNumber(s, 0, false) == 3;
    assert s[0..3] == "1.2";
    assert IsDigit("1.2"[0]);
    assert FactorAt(s, 0) == Parsed(Some(Lit("1.2")), 3);
    assert TermAt(s, 0) == Parsed(Some(Lit("1.2")), 3);
    assert "1.2"[..2] == "1." && "1."[..1] == "1" && "1"[..0] == [];
    assert DotCount("1.2") == 1 by {
      assert "1.2"[1..] == ".2" && ".2"[1..] == "2" && "2"[1..] == [];
    }
    assert FracDigits("1.2") == 1;
    assert DigitsValue("1.2") == 12;
  }

  class ArithParser {
    const input: string
    var pos: nat

    constructor (input: string)
      ensures this.input == input && pos == 0
    {
      this.input := input;
      pos := 0;
    }

    method Factor() returns (r: Option<Num>)
      requires pos <= |input|
      modifies this
      ensures Parsed(r, pos) == FactorAt(input, old(pos))
      ensures old(pos) <= pos <= |input|
      ensures r.Some? ==> pos > old(pos)
      decreases |input| - pos, 0
    {
      if pos >= |input| {
        return None;
      }
      if input[pos] == '(' {
        pos := pos + 1;
        var e := Expr();
        if e.None? || pos >= |input| || input[pos] != ')' {
          return None;
        }
        pos := pos + 1;
        return e;
      }
      var start := pos;
      var decimal := false;
      while pos < |input| && (IsDigit(input[pos]) || (input[pos] == '.' && !decimal))
        invariant start <= pos <= |input|
        invariant ScanNumber(input, pos, decimal) == ScanNumber(input, start, false)
        decreases |input| - pos
      {
        decimal := decimal || input[pos] == '.';
        pos := pos + 1;
      }
      if pos == start {
        return None;
      }
      if !Convertible(input[start..pos]) {
        return None;
      }
      return Some(Lit(input[start..pos]));
    }

    method Term() returns (r: Option<Num>)
      requires pos <= |input|
      modifies this
      ensures Parsed(r, pos) == TermAt(input, old(pos))
      ensures old(pos) <= pos <= |input|
      ensures r.Some? ==> pos > old(pos)
      decreases |input| - pos, 1
    {
      var left := Factor();
      if left.None? {
        return None;
      } else if pos >= |input| {
        return left;
      }
      var acc := left.value;
      while true
        invariant old(pos) < pos <= |input|
        invariant TermRest(input, pos, acc) == TermAt(input, old(pos))
        decreases |input| - pos
      {
        var c := CharAt(input, pos);
        if c == '*' || c == '/' {
          pos := pos + 1;
          var right := Factor();
          if right.None? {
            return None;
          }
          acc := Bin(if c == '*' then Mul else Div, acc, right.value);
        } else {
          break;
        }
      }
      return Some(acc);
    }

    method Expr() returns (r: Option<Num>)
      requires pos <= |input|
      modifies this
      ensures Parsed(r, pos) == ExprAt(input, old(pos))
      ensures old(pos) <= pos <= |input|
      ensures r.Some? ==> pos > old(pos)
      decreases |input| - pos, 2
    {
      var left := Term();
      if left.None? {
        return None;
      } else if pos >= |input| {
        return left;
      }
      var acc := left.value;
      while true
        invariant old(pos) < pos <= |input|
        invariant ExprRest(input, pos, acc) == ExprAt(input, old(pos))
        decreases |input| - pos
      {
        var c := CharAt(input, pos);
        if c == '+' || c == '-' {
          pos := pos + 1;
          var right := Term();
          if right.None? {
            return None;
          }
          acc := Bin(if c == '+' then Add else Sub, acc, right.value);
        } else {
          break;
        }
      }
      return Some(acc);
    }

    /** skipSpaces: advance over a run of whitespace and say how far. */
    method SkipSpaces() returns (n: nat)
      requires pos <= |input|
      modifies this
      ensures pos == old(pos) + n <= |input|
      ensures forall k :: old(pos) <= k < pos ==> IsWhitespace(input[k])
      ensures pos == |input| || !IsWhitespace(input[pos])
    {
      var start := pos;
      while pos < |input| && IsWhitespace(input[pos])
        invariant start <= pos <= |input|
        invariant forall k :: start <= k < pos ==> IsWhitespace(input[k])
        decreases |input| - pos
      {
        pos := pos + 1;
      }
      n := pos - start;
    }
  }

  /** CalcQuickPhraseProvider::populate: at most one candidate, shown and
      committed as the formatted value, applied without selection; later
      providers always run. `format` stands for std::to_string of the value. */
  method CalcPopulate(userInput: string, format: Num -> string) returns (o: Outcome)
    ensures o.proceed
    ensures Evaluate(userInput).None? ==> o.candidates == []
    ensures Evaluate(userInput).Some? ==>
      var text := format(Evaluate(userInput).value);
      o.candidates == [Candidate(text, text, NoneSelectionCommit)]
  {
    var parser := new ArithParser(userInput);
    var e := parser.Expr();
    if e.Some? {
      var n := format(e.value);
      o := Outcome([Candidate(n, n, NoneSelectionCommit)], true);
    } else {
      o := Outcome([], true);
    }
  }
}
