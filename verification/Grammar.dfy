/** What the parser (parser.rs) computes, as functions of the text that remains. A position in the
    source is identified with the text from there on. */
module Grammar {
  import opened Machine
  import opened Ast
  import Digits

  // ---- Characters ----

  /** Unicode White_Space. */
  predicate IsWhitespace(c: char) {
    || '\U{0009}' <= c <= '\U{000D}' || c == ' ' || c == '\U{0085}' || c == '\U{00A0}' || c == '\U{1680}'
    || '\U{2000}' <= c <= '\U{200A}' || c == '\U{2028}' || c == '\U{2029}' || c == '\U{202F}'
    || c == '\U{205F}' || c == '\U{3000}'
  }

  /** Unicode category Cc. */
  predicate IsControl(c: char) { c <= '\U{001F}' || '\U{007F}' <= c <= '\U{009F}' }

  predicate Blank(c: char) { IsWhitespace(c) || IsControl(c) || c == '\0' }

  predicate Special(c: char) { c in "():={},\\#@" }

  /** The text starts with an arrow, thin or fat. */
  predicate Arrow(s: string) { |s| >= 2 && s[1] == '>' && (s[0] == '-' || s[0] == '=') }

  /** A word ends here. */
  predicate Breaks(s: string) { s == "" || Blank(s[0]) || Special(s[0]) || Arrow(s) }

  // ---- Words ----

  /** Everything after the comment sign is skipped as well. */
  function SkipBlank(s: string): (r: string)
    ensures |r| <= |s|
    ensures r != "" ==> !Blank(r[0]) && r[0] != '@'
  {
    if s == "" then "" else if Blank(s[0]) then SkipBlank(s[1..]) else if s[0] == '@' then "" else s
  }

  lemma {:induction false} SkipTwice(s: string)
    ensures SkipBlank(SkipBlank(s)) == SkipBlank(s)
  {
    if s != "" && Blank(s[0]) { SkipTwice(s[1..]); }
  }

  function WordLength(s: string): (n: nat)
    ensures n <= |s|
  {
    if Breaks(s) then 0 else 1 + WordLength(s[1..])
  }

  datatype Token = Token(word: string, rest: string)

  function ReadWord(s: string): (t: Token)
    ensures |t.rest| <= |s|
    ensures SkipBlank(s) == "" ==> t == Token("", "")
    ensures SkipBlank(s) != "" ==> t.word != "" && |t.rest| < |s|
  {
    var t := SkipBlank(s);
    if t == "" then Token("", "")
    else if Arrow(t) then Token(t[..2], t[2..])
    else if Special(t[0]) then Token(t[..1], t[1..])
    else Token(t[..WordLength(t)], t[WordLength(t)..])
  }

  /** The text after n more words. */
  function SkipWords(s: string, n: nat): (r: string)
    ensures |r| <= |s|
    decreases n
  {
    if n == 0 then s else SkipWords(ReadWord(s).rest, n - 1)
  }

  // ---- Numbers ----

  /** Rust's `parse::<i64>`: an optional sign, at least one digit, and no overflow. */
  function ParseInt(w: string): Option<i64> {
    var signed := w != "" && (w[0] == '-' || w[0] == '+');
    var digits := if signed then w[1..] else w;
    if digits == "" || !Digits.AllDigits(digits) then None else
    var n: int := Digits.ValueOf(digits);
    var v: int := if signed && w[0] == '-' then -n else n;
    if -TWO_63 <= v < TWO_63 then Some(v) else None
  }

  function Lower(c: char): char { if 'A' <= c <= 'Z' then c + ('a' - 'A') else c }

  function LowerAll(s: string): string { if s == "" then "" else [Lower(s[0])] + LowerAll(s[1..]) }

  function DigitRun(s: string): (n: nat)
    ensures n <= |s|
  {
    if s == "" || !Digits.IsDigit(s[0]) then 0 else 1 + DigitRun(s[1..])
  }

  function Unsigned(s: string): string { if s != "" && (s[0] == '-' || s[0] == '+') then s[1..] else s }

  predicate IsDecimalFloat(s: string) {
    var whole := DigitRun(s);
    var s1 := s[whole..];
    var dotted := s1 != "" && s1[0] == '.';
    var s2 := if dotted then s1[1..] else s1;
    var part := if dotted then DigitRun(s2) else 0;
    var s3 := s2[part..];
    && whole + part > 0
    && (s3 == "" || (s3[0] == 'e' && var e := Unsigned(s3[1..]); e != "" && DigitRun(e) == |e|))
  }

  /** Rust's `parse::<f64>` accepts the word. */
  predicate IsFloatWord(w: string) {
    var body := LowerAll(Unsigned(w));
    body == "inf" || body == "infinity" || body == "nan" || IsDecimalFloat(body)
  }

  // ---- The grammar ----

  datatype Error = Eof | UnknownType(word: string)

  datatype Result<T> = Ok(value: T, rest: string) | Bad(error: Error)
  {
    predicate IsFailure() { Bad? }
    function PropagateFailure<U>(): Result<U> requires Bad? { Bad(error) }
    function Extract(): (T, string) requires Ok? { (value, rest) }
  }

  /** The first word of a type. */
  datatype TypeWord = IntWord | FloatWord | AnyWord | TwoWord(either: bool) | NoType

  function TypeWordOf(w: string): TypeWord {
    if w == "Int" then IntWord else if w == "Float" then FloatWord else if w == "Any" then AnyWord
    else if w == "Pair" then TwoWord(false) else if w == "Either" then TwoWord(true) else NoType
  }

  function ParseType(s: string): (r: Result<Type>)
    ensures r.Ok? ==> |r.rest| < |s|
    decreases |s|, 0
  {
    var t := ReadWord(s);
    match TypeWordOf(t.word)
    case IntWord => Ok(TInt, t.rest)
    case FloatWord => Ok(TFloat, t.rest)
    case AnyWord => Ok(TAny, t.rest)
    case TwoWord(either) => ParseTwoTypes(either, t.rest)
    case NoType => Bad(UnknownType(t.word))
  }

  /** After `Pair` or `Either`. */
  function ParseTwoTypes(either: bool, s: string): (r: Result<Type>)
    ensures r.Ok? ==> |r.rest| <= |s|
    decreases |s|, 1
  {
    var (a, s1) :- ParseType(SkipWords(s, 1));
    var (b, s2) :- ParseType(SkipWords(s1, 1));
    Ok(if either then TEither(a, b) else TPair(a, b), SkipWords(s2, 1))
  }

  lemma UnfoldType(s: string, either: bool)
    requires TypeWordOf(ReadWord(s).word) == TwoWord(either)
    ensures ParseType(s) == ParseTwoTypes(either, ReadWord(s).rest)
  {
  }

  /** The first word of an expression. */
  datatype Lead =
    | BinLead(op: BinOp) | PairLead | LeftLead | RightLead | MatchLead | LetLead | UnpackLead
    | LambdaLead | ParenLead | AtomLead

  function LeadOf(w: string): Lead {
    if w == "add" then BinLead(Add) else if w == "sub" then BinLead(Sub)
    else if w == "mul" then BinLead(Mul) else if w == "div" then BinLead(Div)
    else if w == "eq" then BinLead(Eq) else if w == "gt" then BinLead(Gt)
    else if w == "lt" then BinLead(Lt) else if w == "ge" then BinLead(Ge)
    else if w == "le" then BinLead(Le) else if w == "pair" then PairLead
    else if w == "Left" then LeftLead else if w == "Right" then RightLead
    else if w == "match" then MatchLead else if w == "let" then LetLead
    else if w == "unpack" then UnpackLead else if w == "\\" then LambdaLead
    else if w == "(" then ParenLead else AtomLead
  }

  function Atom(w: string): Expr {
    if ParseInt(w).Some? then IntLiteral(ParseInt(w).value)
    else if IsFloatWord(w) then FloatLiteral(Float(w))
    else Var(w)
  }

  function ParseExpr(s: string): (r: Result<Expr>)
    ensures r.Ok? ==> |r.rest| < |s|
    decreases |s|, 1
  {
    if SkipBlank(s) == "" then Bad(Eof) else ParseAfter(ReadWord(s))
  }

  /** After the first word. */
  function ParseAfter(t: Token): (r: Result<Expr>)
    ensures r.Ok? ==> |r.rest| <= |t.rest|
    decreases |t.rest|, 5
  {
    ParseLead(LeadOf(t.word), t.word, t.rest)
  }

  /** After a first word w of the given kind. */
  function ParseLead(lead: Lead, w: string, s: string): (r: Result<Expr>)
    ensures r.Ok? ==> |r.rest| <= |s|
    decreases |s|, 4
  {
    match lead
    case BinLead(op) => ParseTwo(Some(op), s)
    case PairLead => ParseTwo(None, s)
    case LeftLead => ParseInjection(true, s)
    case RightLead => ParseInjection(false, s)
    case MatchLead => ParseMatch(s)
    case LetLead => ParseLet(s)
    case UnpackLead => ParseUnpack(s)
    case LambdaLead => ParseLambda(s)
    case ParenLead => ParseParens(s)
    case AtomLead => Ok(Atom(w), s)
  }

  /** After an operator, or after `pair`. */
  function ParseTwo(op: Option<BinOp>, s: string): (r: Result<Expr>)
    ensures r.Ok? ==> |r.rest| <= |s|
    decreases |s|, 2
  {
    var (l, s1) :- ParseExpr(s);
    var (r, s2) :- ParseExpr(s1);
    Ok(if op.Some? then Bin(op.value, l, r) else Pair(l, r), s2)
  }

  /** After `Left` or `Right`. */
  function ParseInjection(left: bool, s: string): (r: Result<Expr>)
    ensures r.Ok? ==> |r.rest| <= |s|
    decreases |s|, 2
  {
    var (v, s1) :- ParseExpr(SkipWords(s, 1));
    Ok(if left then Left(v) else Right(v), SkipWords(s1, 1))
  }

  /** After `let`. */
  function ParseLet(s: string): (r: Result<Expr>)
    ensures r.Ok? ==> |r.rest| <= |s|
    decreases |s|, 3
  {
    var x := ReadWord(s);
    if x.word == "rec" then
      var y := ReadWord(x.rest);
      ParseBinding(true, y.word, y.rest)
    else ParseBinding(false, x.word, x.rest)
  }

  /** After `unpack`. */
  function ParseUnpack(s: string): (r: Result<Expr>)
    ensures r.Ok? ==> |r.rest| <= |s|
    decreases |s|, 2
  {
    var a := ReadWord(s);
    var b := ReadWord(a.rest);
    var (p, s1) :- ParseExpr(SkipWords(b.rest, 1));
    var (body, s2) :- ParseExpr(SkipWords(s1, 1));
    Ok(Unpack(a.word, b.word, p, body), s2)
  }

  /** After the backslash. */
  function ParseLambda(s: string): (r: Result<Expr>)
    ensures r.Ok? ==> |r.rest| <= |s|
    decreases |s|, 2
  {
    var x := ReadWord(s);
    var (ty, s1) :- ParseType(SkipWords(x.rest, 1));
    var (body, s2) :- ParseExpr(SkipWords(s1, 1));
    Ok(Lambda(x.word, ty, body), s2)
  }

  /** After an opening parenthesis: a parenthesised expression, or an application. */
  function ParseParens(s: string): (r: Result<Expr>)
    ensures r.Ok? ==> |r.rest| <= |s|
    decreases |s|, 2
  {
    var (first, s1) :- ParseExpr(s);
    var after := SkipBlank(s1);
    if after != "" && after[0] == ')' then Ok(first, SkipWords(after, 1))
    else
      var (second, s2) :- ParseExpr(after);
      Ok(App(first, second, false), SkipWords(s2, 1))
  }

  datatype Arm = Arm(name: string, body: Expr)

  /** An arm of a match from its binder on. */
  function ParseArm(s: string): (r: Result<Arm>)
    ensures r.Ok? ==> |r.rest| <= |s|
    decreases |s|, 2
  {
    var x := ReadWord(s);
    var (body, s1) :- ParseExpr(SkipWords(x.rest, 2));
    Ok(Arm(x.word, body), s1)
  }

  /** Between the arms: the comma is optional, the constructor and the parenthesis are dropped. */
  function SkipToArm(s: string): (r: string)
    ensures |r| <= |s|
  {
    var next := ReadWord(s);
    SkipWords(if next.word == "," then SkipWords(next.rest, 1) else next.rest, 1)
  }

  /** After the keyword `match`. */
  function ParseMatch(s: string): (r: Result<Expr>)
    ensures r.Ok? ==> |r.rest| <= |s|
    decreases |s|, 3
  {
    var (scrutinee, s1) :- ParseExpr(s);
    var (left, s2) :- ParseArm(SkipWords(s1, 3));
    var (right, s3) :- ParseArm(SkipToArm(s2));
    Ok(Match(scrutinee, left.name, left.body, right.name, right.body), SkipWords(s3, 1))
  }

  /** After the name of a `let` or `let rec`. */
  function ParseBinding(rec: bool, name: string, s: string): (r: Result<Expr>)
    ensures r.Ok? ==> |r.rest| <= |s|
    decreases |s|, 2
  {
    var (val, s1) :- ParseExpr(SkipWords(s, 1));
    var (body, s2) :- ParseExpr(SkipWords(s1, 1));
    Ok(if rec then LetRec(name, val, body) else Let(name, val, body), s2)
  }

  /** Leading blanks do not matter. */
  lemma SkipFirst(s: string)
    ensures SkipBlank(SkipBlank(s)) == SkipBlank(s)
    ensures ReadWord(SkipBlank(s)) == ReadWord(s) && ParseExpr(SkipBlank(s)) == ParseExpr(s)
  {
    SkipTwice(s);
  }

  /** What `autarky_execute` accepts: one expression and nothing after it. */
  function Program(s: string): Option<Expr> {
    match ParseExpr(s)
    case Ok(e, rest) => if SkipBlank(rest) == "" then Some(e) else None
    case Bad(_) => None
  }
}
