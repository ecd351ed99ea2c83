/** `evaluateFormula` of the player profile (pages/PlayerProfile.tsx).

    A calculated metric's formula is text such as `[Kilo]/(([Boy]/100)*([Boy]/100))`.
    Every `[Name]` placeholder (regular expression `/\[.*?\]/g`) is looked up
    in a per-day record; a missing or null value makes the result null.
    Otherwise every occurrence of the placeholder text is replaced by
    `String(value)`. If a bracket pair is left afterwards the result is null.
    The text is then evaluated as a JavaScript expression
    (`new Function('return ' + expression)`), and a finite numeric result is
    rounded to two decimals.

    The expression text is a sequence of `Piece`s: ordinary characters, and the
    text `String(r)` of a substituted non-negative number, kept as one opaque
    piece (a negative number becomes the character `-` followed by the piece
    of its absolute value, exactly as `String` writes it). Evaluation
    tokenises the text with JavaScript's rules for the characters the formula
    builder can produce and parses it with JavaScript's operator
    precedence. */
module Formula {
  import opened Seqs
  import opened Numbers
  import opened Types
  import Dates
  import Text

  datatype Piece = Ch(c: char) | Lit(r: real)

  function Chars(s: string): (r: seq<Piece>)
    ensures |r| == |s|
    ensures forall i :: 0 <= i < |s| ==> r[i] == Ch(s[i])
  {
    seq(|s|, i requires 0 <= i < |s| => Ch(s[i]))
  }

  lemma CharsAppend(a: string, b: string)
    ensures Chars(a + b) == Chars(a) + Chars(b)
  {
  }

  /** The characters of a piece sequence that holds no substituted number. */
  function Spell(ps: seq<Piece>): (s: string)
    ensures (forall i :: 0 <= i < |ps| ==> ps[i].Ch?) ==> Chars(s) == ps
  {
    if ps == [] then []
    else (if ps[0].Ch? then [ps[0].c] else []) + Spell(ps[1..])
  }

  lemma SpellChars(s: string)
    ensures Spell(Chars(s)) == s
  {
    var r := Spell(Chars(s));
    assert Chars(r) == Chars(s);
    CharsInjective(r, s);
  }

  lemma {:induction false} CharsInjective(a: string, b: string)
    requires Chars(a) == Chars(b)
    ensures a == b
  {
    assert |a| == |b|;
    forall i | 0 <= i < |a|
      ensures a[i] == b[i]
    {
      assert Chars(a)[i] == Ch(a[i]) && Chars(b)[i] == Ch(b[i]);
    }
  }

  predicate IsLineTerminator(c: char)
  {
    c == '\n' || c == '\r' || c == '\U{2028}' || c == '\U{2029}'
  }

  /** `.` of a regular expression matches every character but a line terminator. */
  predicate AnyButNewline(p: Piece)
  {
    !(p.Ch? && IsLineTerminator(p.c))
  }

  // ---------------------------------------------------------------------------
  // The placeholder pattern /\[.*?\]/ : a '[' and the nearest ']' after it,
  // with no line terminator in between.

  /** The index of the nearest `]` at or after `j`, if no line terminator comes first. */
  function CloseFrom(s: seq<Piece>, j: nat): (r: Option<nat>)
    requires j <= |s|
    ensures r.Some? ==> j <= r.value < |s| && s[r.value] == Ch(']')
    ensures r.Some? ==> forall k :: j <= k < r.value ==> s[k] != Ch(']') && AnyButNewline(s[k])
    decreases |s| - j
  {
    if j == |s| then None
    else if s[j] == Ch(']') then Some(j)
    else if !AnyButNewline(s[j]) then None
    else CloseFrom(s, j + 1)
  }

  /** The end of the match that starts at `i`, if one does. */
  function MatchAt(s: seq<Piece>, i: nat): (r: Option<nat>)
    requires i <= |s|
    ensures r.Some? ==> i < r.value < |s| && s[i] == Ch('[') && s[r.value] == Ch(']')
    ensures r.Some? ==> forall k :: i < k < r.value ==> s[k] != Ch(']') && AnyButNewline(s[k])
  {
    if i < |s| && s[i] == Ch('[') then CloseFrom(s, i + 1) else None
  }

  /** `s.match(/\[.*?\]/g) || []` from position `i`: the matched texts, left to right. */
  function MatchesFrom(s: seq<Piece>, i: nat): (r: seq<seq<Piece>>)
    requires i <= |s|
    ensures forall k :: 0 <= k < |r| ==> IsPlaceholder(r[k]) && PlainInside(r[k])
    decreases |s| - i
  {
    if i == |s| then []
    else
      match MatchAt(s, i)
      case Some(j) => [s[i..j + 1]] + MatchesFrom(s, j + 1)
      case None => MatchesFrom(s, i + 1)
  }

  predicate IsPlaceholder(m: seq<Piece>)
  {
    |m| >= 2 && m[0] == Ch('[') && m[|m| - 1] == Ch(']')
  }

  /** Between its brackets a match holds no `]` and no line terminator. */
  predicate PlainInside(m: seq<Piece>)
  {
    forall i :: 0 < i < |m| - 1 ==> m[i] != Ch(']') && AnyButNewline(m[i])
  }

  /** `/\[.*?\]/.test(s)` from position `i`. */
  predicate HasMatchFrom(s: seq<Piece>, i: nat)
    requires i <= |s|
    decreases |s| - i
  {
    i < |s| && (MatchAt(s, i).Some? || HasMatchFrom(s, i + 1))
  }

  /** `test` succeeds exactly when `match` finds something. */
  lemma {:induction false} HasMatchIffMatches(s: seq<Piece>, i: nat)
    requires i <= |s|
    ensures HasMatchFrom(s, i) <==> MatchesFrom(s, i) != []
    decreases |s| - i
  {
    if i < |s| && MatchAt(s, i).None? {
      HasMatchIffMatches(s, i + 1);
    }
  }

  function Placeholders(formula: string): (r: seq<seq<Piece>>)
    ensures forall k :: 0 <= k < |r| ==> IsPlaceholder(r[k]) && PlainInside(r[k])
  {
    MatchesFrom(Chars(formula), 0)
  }

  /** `placeholder.substring(1, placeholder.length - 1)` */
  function Name(m: seq<Piece>): string
    requires IsPlaceholder(m)
  {
    Spell(m[1..|m| - 1])
  }

  // ---------------------------------------------------------------------------
  // Substitution.

  /** `String(value)` as pieces. */
  function ValueText(v: Value): seq<Piece>
  {
    match v
    case Num(r) => if r < 0.0 then [Ch('-'), Lit(-r)] else [Lit(r)]
    case Text(s) => Chars(s)
    case Null => Chars("null")
  }

  /** `dataPoint[name]`, with `undefined` and `null` both read as missing. */
  function Lookup(point: map<string, Value>, name: string): (r: Option<Value>)
    ensures r.Some? <==> name in point && point[name] != Null
    ensures r.Some? ==> r.value == point[name]
  {
    if name in point && point[name] != Null then Some(point[name]) else None
  }

  /** `e.split(pat).join(rep)`: every non-overlapping occurrence of `pat`,
      scanning left to right, is replaced by `rep`. */
  function ReplaceAll(e: seq<Piece>, pat: seq<Piece>, rep: seq<Piece>): seq<Piece>
    requires |pat| > 0
    decreases |e|
  {
    if |e| < |pat| then e
    else if e[..|pat|] == pat then rep + ReplaceAll(e[|pat|..], pat, rep)
    else [e[0]] + ReplaceAll(e[1..], pat, rep)
  }

  /** The substitution loop: placeholders in order, stopping at the first missing value. */
  function Substitute(e: seq<Piece>, ps: seq<seq<Piece>>, point: map<string, Value>): Option<seq<Piece>>
    requires forall k :: 0 <= k < |ps| ==> IsPlaceholder(ps[k])
    decreases |ps|
  {
    if ps == [] then Some(e)
    else
      match Lookup(point, Name(ps[0]))
      case None => None
      case Some(v) => Substitute(ReplaceAll(e, ps[0], ValueText(v)), ps[1..], point)
  }

  // ---------------------------------------------------------------------------
  // Tokens of the evaluated text.

  datatype Token = NumTok(v: real) | Plus | Minus | Times | Divide | Power | LParen | RParen

  /** White space other than line terminators separates tokens. */
  predicate IsBlankChar(c: char)
  {
    Text.IsSpace(c) && !IsLineTerminator(c)
  }

  predicate IsDigitPiece(p: Piece)
  {
    p.Ch? && Dates.IsDigit(p.c)
  }

  /** A substituted number directly next to a digit, a '.' or another number. */
  predicate TouchesNumber(p: Piece)
  {
    p.Lit? || IsDigitPiece(p) || p == Ch('.')
  }

  function DigitRun(e: seq<Piece>, i: nat): (j: nat)
    requires i <= |e|
    ensures i <= j <= |e|
    ensures forall k :: i <= k < j ==> IsDigitPiece(e[k])
    ensures j == |e| || !IsDigitPiece(e[j])
    decreases |e| - i
  {
    if i < |e| && IsDigitPiece(e[i]) then DigitRun(e, i + 1) else i
  }

  /** The value of the digits `e[i..j]` in base `b`. */
  function RunValue(e: seq<Piece>, i: nat, j: nat, b: nat): (n: nat)
    requires i <= j <= |e|
    requires forall k :: i <= k < j ==> IsDigitPiece(e[k])
    decreases j - i
  {
    if j == i then 0
    else
      assert IsDigitPiece(e[j - 1]);
      RunValue(e, i, j - 1, b) * b + Dates.DigitValue(e[j - 1].c)
  }

  /** The value of the digits after a decimal point. */
  function Fraction(e: seq<Piece>, i: nat, j: nat): (f: real)
    requires i <= j <= |e|
    requires forall k :: i <= k < j ==> IsDigitPiece(e[k])
  {
    (RunValue(e, i, j, 10) as real) / (Dates.Pow10(j - i) as real)
  }

  predicate AllOctal(e: seq<Piece>, i: nat, j: nat)
    requires i <= j <= |e|
  {
    forall k :: i <= k < j ==> e[k].Ch? && '0' <= e[k].c <= '7'
  }

  /** A numeric literal starting at `i` and the index after it: `.5`, `5`,
      `5.`, `5.25`, and the legacy forms of non-strict code: `017` is octal,
      `09.5` decimal. */
  function ScanNumber(e: seq<Piece>, i: nat): (r: Option<(real, nat)>)
    requires i < |e| && (IsDigitPiece(e[i]) || e[i] == Ch('.'))
    ensures r.Some? ==> i < r.value.1 <= |e|
  {
    if e[i] == Ch('.') then
      var j := DigitRun(e, i + 1);
      if j == i + 1 then None else Some((Fraction(e, i + 1, j), j))
    else
      var j := DigitRun(e, i);
      if e[i] == Ch('0') && j > i + 1 && AllOctal(e, i, j) then Some((RunValue(e, i, j, 8) as real, j))
      else
        var n := RunValue(e, i, j, 10) as real;
        if j < |e| && e[j] == Ch('.') then
          var k := DigitRun(e, j + 1);
          Some((n + Fraction(e, j + 1, k), k))
        else Some((n, j))
  }

  /** The first line terminator at or after `j`, if any. */
  predicate NewlineFrom(e: seq<Piece>, j: nat)
    requires j <= |e|
    decreases |e| - j
  {
    j < |e| && (!AnyButNewline(e[j]) || NewlineFrom(e, j + 1))
  }

  /** The index after the star-slash closing a block comment whose body starts at `j`. */
  function CommentEnd(e: seq<Piece>, j: nat): (r: Option<nat>)
    requires j <= |e|
    ensures r.Some? ==> j + 2 <= r.value <= |e|
    decreases |e| - j
  {
    if j + 1 >= |e| then None
    else if !AnyButNewline(e[j]) then None
    else if e[j] == Ch('*') && e[j + 1] == Ch('/') then Some(j + 2)
    else CommentEnd(e, j + 1)
  }

  function Prepend(t: Token, rest: Option<seq<Token>>): Option<seq<Token>>
  {
    if rest.Some? then Some([t] + rest.value) else None
  }

  predicate NextIs(e: seq<Piece>, i: nat, c: char)
  {
    i + 1 < |e| && e[i + 1] == Ch(c)
  }

  /** The tokens of `e[i..]`, or `None` when JavaScript would reject the text
      (`++`, `--`, an unterminated comment, a stray character) or when the
      text falls outside this model (line terminators, a substituted number
      touching a digit, a '.' or another number). */
  function Lex(e: seq<Piece>, i: nat): Option<seq<Token>>
    requires i <= |e|
    decreases |e| - i
  {
    if i == |e| then Some([])
    else
      match e[i]
      case Lit(r) =>
        if i + 1 < |e| && TouchesNumber(e[i + 1]) then None
        else Prepend(NumTok(r), Lex(e, i + 1))
      case Ch(c) =>
        if IsBlankChar(c) then Lex(e, i + 1)
        else if c == '(' then Prepend(LParen, Lex(e, i + 1))
        else if c == ')' then Prepend(RParen, Lex(e, i + 1))
        else if c == '+' then (if NextIs(e, i, '+') then None else Prepend(Plus, Lex(e, i + 1)))
        else if c == '-' then (if NextIs(e, i, '-') then None else Prepend(Minus, Lex(e, i + 1)))
        else if c == '*' then
          (if NextIs(e, i, '*') then Prepend(Power, Lex(e, i + 2)) else Prepend(Times, Lex(e, i + 1)))
        else if c == '/' then
          if NextIs(e, i, '/') then (if NewlineFrom(e, i + 2) then None else Some([]))
          else if NextIs(e, i, '*') then
            match CommentEnd(e, i + 2)
            case None => None
            case Some(j) => Lex(e, j)
          else Prepend(Divide, Lex(e, i + 1))
        else if Dates.IsDigit(c) || c == '.' then
          match ScanNumber(e, i)
          case None => None
          case Some((v, j)) =>
            if j < |e| && e[j].Lit? then None else Prepend(NumTok(v), Lex(e, j))
        else None
  }

  // ---------------------------------------------------------------------------
  // Expressions, with JavaScript precedence: additive < multiplicative <
  // exponentiation (right-associative, with no unary operand on its left) < unary.

  datatype Parsed = Parsed(v: ExtReal, rest: seq<Token>)

  function ParseSum(ts: seq<Token>): (r: Option<Parsed>)
    ensures r.Some? ==> |r.value.rest| < |ts|
    decreases |ts|, 4
  {
    match ParseProduct(ts)
    case None => None
    case Some(p) => SumRest(p.v, p.rest)
  }

  function SumRest(acc: ExtReal, ts: seq<Token>): (r: Option<Parsed>)
    ensures r.Some? ==> |r.value.rest| <= |ts|
    decreases |ts|, 4
  {
    if ts != [] && (ts[0] == Plus || ts[0] == Minus) then
      match ParseProduct(ts[1..])
      case None => None
      case Some(p) => SumRest(if ts[0] == Plus then Add(acc, p.v) else Sub(acc, p.v), p.rest)
    else Some(Parsed(acc, ts))
  }

  function ParseProduct(ts: seq<Token>): (r: Option<Parsed>)
    ensures r.Some? ==> |r.value.rest| < |ts|
    decreases |ts|, 3
  {
    match ParsePower(ts)
    case None => None
    case Some(p) => ProductRest(p.v, p.rest)
  }

  function ProductRest(acc: ExtReal, ts: seq<Token>): (r: Option<Parsed>)
    ensures r.Some? ==> |r.value.rest| <= |ts|
    decreases |ts|, 3
  {
    if ts != [] && (ts[0] == Times || ts[0] == Divide) then
      match ParsePower(ts[1..])
      case None => None
      case Some(p) => ProductRest(if ts[0] == Times then Mul(acc, p.v) else Div(acc, p.v), p.rest)
    else Some(Parsed(acc, ts))
  }

  function ParsePower(ts: seq<Token>): (r: Option<Parsed>)
    ensures r.Some? ==> |r.value.rest| < |ts|
    decreases |ts|, 2
  {
    if ts != [] && (ts[0] == Plus || ts[0] == Minus) then
      match ParseUnary(ts)
      case None => None
      case Some(p) => if p.rest != [] && p.rest[0] == Power then None else Some(p)
    else
      match ParsePrimary(ts)
      case None => None
      case Some(b) =>
        if b.rest != [] && b.rest[0] == Power then
          match ParsePower(b.rest[1..])
          case None => None
          case Some(x) => Some(Parsed(Pow(b.v, x.v), x.rest))
        else Some(b)
  }

  function ParseUnary(ts: seq<Token>): (r: Option<Parsed>)
    ensures r.Some? ==> |r.value.rest| < |ts|
    decreases |ts|, 1
  {
    if ts != [] && ts[0] == Plus then ParseUnary(ts[1..])
    else if ts != [] && ts[0] == Minus then
      match ParseUnary(ts[1..])
      case None => None
      case Some(p) => Some(Parsed(Neg(p.v), p.rest))
    else ParsePrimary(ts)
  }

  function ParsePrimary(ts: seq<Token>): (r: Option<Parsed>)
    ensures r.Some? ==> |r.value.rest| < |ts|
    decreases |ts|, 0
  {
    if ts == [] then None
    else
      match ts[0]
      case NumTok(x) => Some(Parsed(Fin(x), ts[1..]))
      case LParen =>
        (match ParseSum(ts[1..])
         case None => None
         case Some(p) => if p.rest != [] && p.rest[0] == RParen then Some(Parsed(p.v, p.rest[1..])) else None)
      case _ => None
  }

  lemma LoneNumber(e: seq<Piece>)
    ensures |e| == 1 && e[0].Lit? ==>
              Lex(e, 0) == Some([NumTok(e[0].r)]) && ParseSum([NumTok(e[0].r)]) == Some(Parsed(Fin(e[0].r), []))
  {
    if |e| == 1 && e[0].Lit? {
      var ts := [NumTok(e[0].r)];
      assert Lex(e, 1) == Some([]);
      assert ts + [] == ts;
      assert Lex(e, 0) == Prepend(NumTok(e[0].r), Lex(e, 1));
      assert ParsePrimary(ts) == Some(Parsed(Fin(e[0].r), []));
      assert ParsePower(ts) == Some(Parsed(Fin(e[0].r), []));
      assert ParseProduct(ts) == Some(Parsed(Fin(e[0].r), []));
    }
  }

  /** `new Function('return ' + text)()`, or `None` when it throws. An empty
      text returns `undefined`, and a lone number is its own value. */
  function Evaluate(e: seq<Piece>): (r: Option<ExtReal>)
    ensures e == [] ==> r.None?
    ensures |e| == 1 && e[0].Lit? ==> r == Some(Fin(e[0].r))
  {
    LoneNumber(e);
    match Lex(e, 0)
    case None => None
    case Some(ts) =>
      match ParseSum(ts)
      case Some(p) => if p.rest == [] then Some(p.v) else None
      case None => None
  }

  // ---------------------------------------------------------------------------
  // The evaluator.

  /** What `evaluateFormula(formula, dataPoint)` returns: `Some` of a number,
      or `None` for `null`. */
  function FormulaValue(formula: string, point: map<string, Value>): (r: Option<real>)
    ensures r.Some? ==> forall k :: 0 <= k < |Placeholders(formula)| ==>
                          Lookup(point, Name(Placeholders(formula)[k])).Some?
    ensures r.Some? ==> Round2(r.value) == r.value
  {
    SubstituteSomeIff(Chars(formula), Placeholders(formula), point);
    match Substitute(Chars(formula), Placeholders(formula), point)
    case None => None
    case Some(e) =>
      if HasMatchFrom(e, 0) then None
      else
        match Evaluate(e)
        case Some(Fin(x)) => Round2Properties(x, x); Some(Round2(x))
        case _ => None
  }

  /** The source's loop: replaces the placeholders one after the other in a
      working copy of the formula. */
  method EvaluateFormula(formula: string, point: map<string, Value>) returns (r: Option<real>)
    ensures r == FormulaValue(formula, point)
  {
    var expression := Chars(formula);
    var placeholders := Placeholders(formula);
    var i := 0;
    while i < |placeholders|
      invariant 0 <= i <= |placeholders|
      invariant Substitute(expression, placeholders[i..], point) ==
                Substitute(Chars(formula), placeholders, point)
    {
      var value := Lookup(point, Name(placeholders[i]));
      if value.None? {
        return None;
      }
      assert placeholders[i..][1..] == placeholders[i + 1..];
      expression := ReplaceAll(expression, placeholders[i], ValueText(value.value));
      i := i + 1;
    }
    assert placeholders[i..] == [];
    if HasMatchFrom(expression, 0) {
      return None;
    }
    var result := Evaluate(expression);
    if result.Some? && result.value.Fin? {
      r := Some(Round2(result.value.r));
    } else {
      r := None;
    }
  }

  // ---------------------------------------------------------------------------
  // Properties.

  /** Substitution fails exactly when some placeholder has no value. */
  lemma {:induction false} SubstituteSomeIff(e: seq<Piece>, ps: seq<seq<Piece>>, point: map<string, Value>)
    requires forall k :: 0 <= k < |ps| ==> IsPlaceholder(ps[k])
    ensures Substitute(e, ps, point).Some? <==>
            forall k :: 0 <= k < |ps| ==> Lookup(point, Name(ps[k])).Some?
    decreases |ps|
  {
    if ps != [] {
      var v := Lookup(point, Name(ps[0]));
      if v.Some? {
        SubstituteSomeIff(ReplaceAll(e, ps[0], ValueText(v.value)), ps[1..], point);
        assert forall k :: 1 <= k < |ps| ==> ps[k] == ps[1..][k - 1];
      }
    }
  }

  /** A placeholder whose value is missing or null makes the result null. */
  lemma MissingValueIsNull(formula: string, point: map<string, Value>, k: nat)
    requires k < |Placeholders(formula)|
    requires Lookup(point, Name(Placeholders(formula)[k])).None?
    ensures FormulaValue(formula, point) == None
  {
    SubstituteSomeIff(Chars(formula), Placeholders(formula), point);
  }

  /** A result is a finite number that two-decimal rounding leaves unchanged. */
  lemma ResultIsRounded(formula: string, point: map<string, Value>)
    requires FormulaValue(formula, point).Some?
    ensures Round2(FormulaValue(formula, point).value) == FormulaValue(formula, point).value
  {
    var e := Substitute(Chars(formula), Placeholders(formula), point).value;
    var x := Evaluate(e).value.r;
    Round2Properties(x, x);
  }

  /** A bracket pair left after substitution (for instance one brought in by a
      text value) makes the result null. */
  lemma LeftoverBracketIsNull(formula: string, point: map<string, Value>)
    requires Substitute(Chars(formula), Placeholders(formula), point).Some?
    requires HasMatchFrom(Substitute(Chars(formula), Placeholders(formula), point).value, 0)
    ensures FormulaValue(formula, point) == None
  {
  }

  /** `pat` occurs in `s` (at some position, scanning from the left). */
  predicate Occurs(s: seq<Piece>, pat: seq<Piece>)
    decreases |s|
  {
    |s| >= |pat| && (s[..|pat|] == pat || (s != [] && Occurs(s[1..], pat)))
  }

  /** The text `String(x)` of a number, as pieces. */
  predicate NumberText(rep: seq<Piece>)
  {
    (|rep| == 1 && rep[0].Lit?) || (|rep| == 2 && rep[0] == Ch('-') && rep[1].Lit?)
  }

  predicate AllChars(s: seq<Piece>)
  {
    forall i :: 0 <= i < |s| ==> s[i].Ch?
  }

  lemma OccursSkip(x: Piece, b: seq<Piece>, pat: seq<Piece>)
    requires |pat| > 0 && x != pat[0]
    ensures Occurs([x] + b, pat) <==> Occurs(b, pat)
  {
    assert ([x] + b)[1..] == b;
  }

  /** The first place where `ReplaceAll` changes its input, if it does. */
  lemma {:induction false} FirstReplacement(t: seq<Piece>, pat: seq<Piece>, rep: seq<Piece>) returns (q: int)
    requires |pat| > 0
    ensures q < 0 ==> ReplaceAll(t, pat, rep) == t
    ensures q >= 0 ==> q + |pat| <= |t| && q + |rep| <= |ReplaceAll(t, pat, rep)| &&
                       ReplaceAll(t, pat, rep)[..q] == t[..q] &&
                       ReplaceAll(t, pat, rep)[q..q + |rep|] == rep
    decreases |t|
  {
    if |t| < |pat| {
      q := -1;
    } else if t[..|pat|] == pat {
      q := 0;
    } else {
      var q' := FirstReplacement(t[1..], pat, rep);
      var r' := ReplaceAll(t[1..], pat, rep);
      assert ReplaceAll(t, pat, rep) == [t[0]] + r';
      if q' < 0 {
        q := -1;
        assert t == [t[0]] + t[1..];
      } else {
        q := q' + 1;
        assert t[..q] == [t[0]] + t[1..][..q'];
      }
    }
  }

  /** Every occurrence of a placeholder is replaced, not only the first: once
      a placeholder's text has been replaced by a number, it occurs nowhere. */
  lemma {:induction false} ReplaceAllRemovesEvery(e: seq<Piece>, pat: seq<Piece>, rep: seq<Piece>)
    requires IsPlaceholder(pat) && AllChars(pat) && NumberText(rep)
    ensures !Occurs(ReplaceAll(e, pat, rep), pat)
    decreases |e|
  {
    if |e| < |pat| {
    } else if e[..|pat|] == pat {
      var r := ReplaceAll(e[|pat|..], pat, rep);
      ReplaceAllRemovesEvery(e[|pat|..], pat, rep);
      if |rep| == 1 {
        OccursSkip(rep[0], r, pat);
      } else {
        OccursSkip(rep[1], r, pat);
        assert rep + r == [rep[0]] + ([rep[1]] + r);
        OccursSkip(rep[0], [rep[1]] + r, pat);
      }
    } else {
      var r := ReplaceAll(e[1..], pat, rep);
      ReplaceAllRemovesEvery(e[1..], pat, rep);
      var w := [e[0]] + r;
      assert ReplaceAll(e, pat, rep) == w;
      assert w[1..] == r;
      if |w| >= |pat| {
        ReplacedHead(e, pat, rep);
      }
    }
  }

  /** Where the input does not start with the placeholder, neither does the
      output: the first replacement, if any, puts a number into the window. */
  lemma ReplacedHead(e: seq<Piece>, pat: seq<Piece>, rep: seq<Piece>)
    requires IsPlaceholder(pat) && AllChars(pat) && NumberText(rep)
    requires |e| >= |pat| && e[..|pat|] != pat
    requires |[e[0]] + ReplaceAll(e[1..], pat, rep)| >= |pat|
    ensures ([e[0]] + ReplaceAll(e[1..], pat, rep))[..|pat|] != pat
  {
    var r := ReplaceAll(e[1..], pat, rep);
    var w := [e[0]] + r;
    var q := FirstReplacement(e[1..], pat, rep);
    var n := |pat|;
    if q < 0 || q + 1 >= n {
      assert w[..n] == e[..n] by {
        forall k | 0 <= k < n
          ensures w[k] == e[k]
        {
          if k > 0 {
            assert w[k] == r[k - 1];
            if q >= 0 {
              assert r[..q][k - 1] == e[1..][..q][k - 1];
            }
          }
        }
      }
    } else {
      assert w[q + 1] == rep[0];
      if rep[0].Lit? {
        assert w[..n][q + 1] != pat[q + 1];
      } else if q + 2 < n {
        assert w[q + 2] == rep[1];
        assert w[..n][q + 2] != pat[q + 2];
      } else {
        assert w[..n][n - 1] != pat[n - 1];
      }
    }
  }

  // ---------------------------------------------------------------------------
  // Formulas the builder produces.

  /** A metric button adds `[name]`; for a name without `]` or line breaks
      that text is exactly one placeholder, naming that metric. */
  lemma ButtonPlaceholder(name: string)
    requires forall i :: 0 <= i < |name| ==> name[i] != ']' && !IsLineTerminator(name[i])
    ensures Placeholders("[" + name + "]") == [Chars("[" + name + "]")]
    ensures Name(Chars("[" + name + "]")) == name
  {
    var t := "[" + name + "]";
    var s := Chars(t);
    var n := |s| - 1;
    assert |t| == |name| + 2;
    assert s[0] == Ch(t[0]) && t[0] == '[';
    assert s[n] == Ch(t[n]) && t[n] == ']';
    forall k | 1 <= k < n
      ensures s[k] != Ch(']') && AnyButNewline(s[k])
    {
      assert s[k] == Ch(t[k]) && t[k] == name[k - 1];
    }
    CloseFromFinds(s, 1, n);
    assert MatchAt(s, 0) == Some(n);
    assert MatchesFrom(s, n + 1) == [];
    assert s[0..n + 1] == s;
    assert s[1..n] == Chars(name) by {
      CharsAppend("[" + name, "]");
      CharsAppend("[", name);
    }
    SpellChars(name);
  }

  lemma {:induction false} CloseFromFinds(s: seq<Piece>, j: nat, n: nat)
    requires j <= n < |s| && s[n] == Ch(']')
    requires forall k :: j <= k < n ==> s[k] != Ch(']') && AnyButNewline(s[k])
    ensures CloseFrom(s, j) == Some(n)
    decreases n - j
  {
    if j < n {
      CloseFromFinds(s, j + 1, n);
    }
  }

  lemma LexLit(e: seq<Piece>, i: nat)
    requires i < |e| && e[i].Lit?
    requires !(i + 1 < |e| && TouchesNumber(e[i + 1]))
    ensures Lex(e, i) == Prepend(NumTok(e[i].r), Lex(e, i + 1))
  {
  }

  lemma {:induction false} ReplaceAllSkip(x: seq<Piece>, y: seq<Piece>, pat: seq<Piece>, rep: seq<Piece>)
    requires |pat| > 0
    requires forall k :: 0 <= k < |x| ==> x[k] != pat[0]
    ensures ReplaceAll(x + y, pat, rep) == x + ReplaceAll(y, pat, rep)
    decreases |x|
  {
    if x != [] {
      var z := x + y;
      assert forall k :: 0 <= k < |x[1..]| ==> x[1..][k] != pat[0];
      ReplaceAllSkip(x[1..], y, pat, rep);
      assert z[1..] == x[1..] + y;
      ReplaceAllNoStart(z, pat, rep);
      assert x == [x[0]] + x[1..];
    } else {
      assert x + y == y;
    }
  }

  /** A text that does not start with the pattern's first piece keeps that piece. */
  lemma ReplaceAllNoStart(z: seq<Piece>, pat: seq<Piece>, rep: seq<Piece>)
    requires |pat| > 0 && z != [] && z[0] != pat[0]
    ensures ReplaceAll(z, pat, rep) == [z[0]] + ReplaceAll(z[1..], pat, rep)
  {
    if |z| < |pat| {
      ReplaceAllShort(z[1..], pat, rep);
      assert z == [z[0]] + z[1..];
    } else {
      assert z[..|pat|][0] == z[0];
    }
  }

  lemma ReplaceAllShort(e: seq<Piece>, pat: seq<Piece>, rep: seq<Piece>)
    requires 0 < |pat| && |e| < |pat|
    ensures ReplaceAll(e, pat, rep) == e
  {
  }

  lemma ReplaceAllHead(pat: seq<Piece>, y: seq<Piece>, rep: seq<Piece>)
    requires |pat| > 0
    ensures ReplaceAll(pat + y, pat, rep) == rep + ReplaceAll(y, pat, rep)
  {
    assert (pat + y)[..|pat|] == pat;
    assert (pat + y)[|pat|..] == y;
  }

  lemma {:induction false} NoBracketNoMatch(e: seq<Piece>, i: nat)
    requires i <= |e|
    requires forall k :: i <= k < |e| ==> e[k] != Ch('[')
    ensures !HasMatchFrom(e, i)
    decreases |e| - i
  {
    if i < |e| {
      NoBracketNoMatch(e, i + 1);
    }
  }

  lemma ReplaceDifference(pa: seq<Piece>, pb: seq<Piece>, ra: seq<Piece>, rb: seq<Piece>)
    requires pa == [Ch('['), Ch('A'), Ch(']')] && pb == [Ch('['), Ch('B'), Ch(']')]
    requires forall k :: 0 <= k < |ra| ==> ra[k] != Ch('[')
    ensures ReplaceAll(ReplaceAll(pa + [Ch('-')] + pb, pa, ra), pb, rb) == ra + [Ch('-')] + rb
  {
    ReplaceAllHead(pa, [Ch('-')] + pb, ra);
    ReplaceAllSkip([Ch('-')], pb, pa, ra);
    assert pb[..3][1] != pa[1];
    ReplaceAllShort(pb[1..], pa, ra);
    assert pa + [Ch('-')] + pb == pa + ([Ch('-')] + pb);
    assert ReplaceAll(pa + [Ch('-')] + pb, pa, ra) == (ra + [Ch('-')]) + pb;
    ReplaceAllSkip(ra + [Ch('-')], pb, pb, rb);
    ReplaceAllHead(pb, [], rb);
    assert pb + [] == pb;
  }

  /** The difference of two numbers that are not negative, through the
      whole evaluator: `[A]-[B]` is `A - B`, rounded. */
  lemma DifferenceOfTwo(f: string, point: map<string, Value>, a: real, b: real)
    requires f == "[A]-[B]" && Lookup(point, "A") == Some(Num(a)) && Lookup(point, "B") == Some(Num(b))
    requires a >= 0.0 && b >= 0.0
    ensures FormulaValue(f, point) == Some(Round2(a - b))
  {
    DifferencePlaceholders();
    DifferenceCore(f, point, a, b);
  }

  lemma DifferenceCore(f: string, point: map<string, Value>, a: real, b: real)
    requires Chars(f) == [Ch('['), Ch('A'), Ch(']')] + [Ch('-')] + [Ch('['), Ch('B'), Ch(']')]
    requires Placeholders(f) == [[Ch('['), Ch('A'), Ch(']')], [Ch('['), Ch('B'), Ch(']')]]
    requires Lookup(point, "A") == Some(Num(a)) && Lookup(point, "B") == Some(Num(b))
    requires a >= 0.0 && b >= 0.0
    ensures FormulaValue(f, point) == Some(Round2(a - b))
  {
    SubstitutedPieces(f, point);
    DifferenceText(a, b);
    AcceptedFormula(f, point, ValueText(Num(a)) + [Ch('-')] + ValueText(Num(b)), a - b);
  }

  /** The text of `[A]-[B]` with two numbers that are not negative has no
      bracket left and evaluates to their difference. */
  lemma DifferenceText(a: real, b: real)
    requires a >= 0.0 && b >= 0.0
    ensures var e := ValueText(Num(a)) + [Ch('-')] + ValueText(Num(b));
            !HasMatchFrom(e, 0) && Evaluate(e) == Some(Fin(a - b))
  {
    var e := [Lit(a), Ch('-'), Lit(b)];
    assert ValueText(Num(a)) + [Ch('-')] + ValueText(Num(b)) == e;
    NoBracketNoMatch(e, 0);
    DifferenceTokens(a, b);
  }

  lemma AcceptedFormula(formula: string, point: map<string, Value>, e: seq<Piece>, x: real)
    requires Substitute(Chars(formula), Placeholders(formula), point) == Some(e)
    requires !HasMatchFrom(e, 0) && Evaluate(e) == Some(Fin(x))
    ensures FormulaValue(formula, point) == Some(Round2(x))
  {
  }

  /** `[A]-[B]` with a value of `A` that is not negative. */
  lemma SubstitutedPieces(f: string, point: map<string, Value>)
    requires Chars(f) == [Ch('['), Ch('A'), Ch(']')] + [Ch('-')] + [Ch('['), Ch('B'), Ch(']')]
    requires Placeholders(f) == [[Ch('['), Ch('A'), Ch(']')], [Ch('['), Ch('B'), Ch(']')]]
    requires Lookup(point, "A").Some? && Lookup(point, "B").Some?
    requires forall k :: 0 <= k < |ValueText(point["A"])| ==> ValueText(point["A"])[k] != Ch('[')
    ensures Substitute(Chars(f), Placeholders(f), point) ==
            Some(ValueText(point["A"]) + [Ch('-')] + ValueText(point["B"]))
  {
    var pa, pb := [Ch('['), Ch('A'), Ch(']')], [Ch('['), Ch('B'), Ch(']')];
    var ps := Placeholders(f);
    assert Name(pa) == "A" && Name(pb) == "B";
    var ra, rb := ValueText(point["A"]), ValueText(point["B"]);
    var e1 := ReplaceAll(Chars(f), pa, ra);
    assert ps[0] == pa && ps[1..] == [pb];
    assert Substitute(Chars(f), ps, point) == Substitute(e1, [pb], point);
    assert [pb][1..] == [];
    assert Substitute(e1, [pb], point) == Some(ReplaceAll(e1, pb, rb));
    ReplaceDifference(pa, pb, ra, rb);
  }

  lemma DifferenceTokens(a: real, b: real)
    ensures Evaluate([Lit(a), Ch('-'), Lit(b)]) == Some(Fin(a - b))
  {
    var e := [Lit(a), Ch('-'), Lit(b)];
    assert Lex(e, 3) == Some([]);
    assert Lex(e, 2).Some? && Lex(e, 2).value == [NumTok(b)];
    assert Lex(e, 1).Some? && Lex(e, 1).value == [Minus, NumTok(b)];
    assert Lex(e, 0).Some? && Lex(e, 0).value == [NumTok(a), Minus, NumTok(b)];
    var ts := [NumTok(a), Minus, NumTok(b)];
    assert ParsePrimary(ts) == Some(Parsed(Fin(a), ts[1..]));
    assert ParseProduct(ts) == Some(Parsed(Fin(a), ts[1..]));
    assert ts[1..][1..] == [NumTok(b)];
    assert ParsePrimary([NumTok(b)]) == Some(Parsed(Fin(b), []));
    assert ParseProduct([NumTok(b)]) == Some(Parsed(Fin(b), []));
    assert SumRest(Fin(a), ts[1..]) == SumRest(Fin(a - b), []);
    assert ParseSum(ts) == Some(Parsed(Fin(a - b), []));
  }

  /** A negative value after a minus sign: `[A]-[B]` with `B` < 0 becomes a
      text such as `5--3`, which JavaScript rejects because `--` is the
      decrement operator, so the result is null rather than `A - B`. */
  lemma NegativeSubtrahend(f: string, point: map<string, Value>, a: real, b: real)
    requires f == "[A]-[B]" && Lookup(point, "A") == Some(Num(a)) && Lookup(point, "B") == Some(Num(b))
    requires a >= 0.0 && b < 0.0
    ensures FormulaValue(f, point) == None
  {
    DifferencePlaceholders();
    NegativeCore(f, point, a, b);
  }

  lemma NegativeCore(f: string, point: map<string, Value>, a: real, b: real)
    requires Chars(f) == [Ch('['), Ch('A'), Ch(']')] + [Ch('-')] + [Ch('['), Ch('B'), Ch(']')]
    requires Placeholders(f) == [[Ch('['), Ch('A'), Ch(']')], [Ch('['), Ch('B'), Ch(']')]]
    requires Lookup(point, "A") == Some(Num(a)) && Lookup(point, "B") == Some(Num(b))
    requires a >= 0.0 && b < 0.0
    ensures FormulaValue(f, point) == None
  {
    SubstitutedPieces(f, point);
    NegativeText(a, b);
    RejectedFormula(f, point, ValueText(Num(a)) + [Ch('-')] + ValueText(Num(b)));
  }

  /** The text of `[A]-[B]` with a negative `B` has no bracket left and does not evaluate. */
  lemma NegativeText(a: real, b: real)
    requires a >= 0.0 && b < 0.0
    ensures var e := ValueText(Num(a)) + [Ch('-')] + ValueText(Num(b));
            !HasMatchFrom(e, 0) && Evaluate(e) == None
  {
    var e := [Lit(a), Ch('-'), Ch('-'), Lit(-b)];
    assert ValueText(Num(a)) + [Ch('-')] + ValueText(Num(b)) == e;
    NoBracketNoMatch(e, 0);
    NegativeTokens(a, -b);
  }

  lemma RejectedFormula(formula: string, point: map<string, Value>, e: seq<Piece>)
    requires Substitute(Chars(formula), Placeholders(formula), point) == Some(e)
    requires !HasMatchFrom(e, 0) && Evaluate(e) == None
    ensures FormulaValue(formula, point) == None
  {
  }

  lemma NegativeTokens(a: real, b: real)
    ensures Evaluate([Lit(a), Ch('-'), Ch('-'), Lit(b)]) == None
  {
    var e := [Lit(a), Ch('-'), Ch('-'), Lit(b)];
    assert Lex(e, 1) == None;
    LexLit(e, 0);
  }

  lemma DifferencePlaceholders()
    ensures Placeholders("[A]-[B]") == [[Ch('['), Ch('A'), Ch(']')], [Ch('['), Ch('B'), Ch(']')]]
    ensures Chars("[A]-[B]") == [Ch('['), Ch('A'), Ch(']')] + [Ch('-')] + [Ch('['), Ch('B'), Ch(']')]
  {
    var f := Chars("[A]-[B]");
    assert f == [Ch('['), Ch('A'), Ch(']')] + [Ch('-')] + [Ch('['), Ch('B'), Ch(']')];
    DifferenceMatches(f);
  }

  lemma DifferenceMatches(f: seq<Piece>)
    requires f == [Ch('['), Ch('A'), Ch(']'), Ch('-'), Ch('['), Ch('B'), Ch(']')]
    ensures MatchesFrom(f, 0) == [[Ch('['), Ch('A'), Ch(']')], [Ch('['), Ch('B'), Ch(']')]]
  {
    assert CloseFrom(f, 6) == Some(6);
    assert CloseFrom(f, 5) == Some(6);
    assert MatchAt(f, 4) == Some(6);
    assert MatchesFrom(f, 7) == [];
    assert f[4..7] == [Ch('['), Ch('B'), Ch(']')];
    assert MatchesFrom(f, 4) == [f[4..7]];
    assert MatchAt(f, 3) == None;
    assert MatchesFrom(f, 3) == [f[4..7]];
    assert CloseFrom(f, 2) == Some(2);
    assert CloseFrom(f, 1) == Some(2);
    assert MatchAt(f, 0) == Some(2);
    assert f[0..3] == [Ch('['), Ch('A'), Ch(']')];
  }
}
