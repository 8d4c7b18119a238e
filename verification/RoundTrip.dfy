/** Printing an expression and parsing it back. */
module RoundTrip {
  import opened Machine
  import opened Ast
  import opened Grammar
  import Digits

  // ---- What can be printed ----

  /** A word that `read_word` returns whole when it is followed by a break. */
  predicate PlainWord(w: string) { w != "" && forall i :: 0 <= i < |w| ==> !Breaks(w[i..]) }

  /** Any token `read_word` can return, the comment sign excepted. */
  predicate IsToken(w: string) {
    w == "->" || w == "=>" || (|w| == 1 && Special(w[0]) && w[0] != '@') || PlainWord(w)
  }

  /** A word that starts an expression other than a number or a variable. */
  predicate Keyword(w: string) { !LeadOf(w).AtomLead? }

  /** A variable must be a plain word that is neither a keyword nor a number. */
  predicate VariableName(w: string) { PlainWord(w) && !Keyword(w) && ParseInt(w).None? && !IsFloatWord(w) }

  predicate PrintableType(t: Type) {
    match t
    case TFunc(_, _) => false
    case TPair(a, b) => PrintableType(a) && PrintableType(b)
    case TEither(a, b) => PrintableType(a) && PrintableType(b)
    case _ => true
  }

  /** Binders may be any token at all; a `let` binder must not be the word that means recursion. */
  predicate Printable(e: Expr) {
    match e
    case IntLiteral(_) => true
    case FloatLiteral(_) => false
    case Var(x) => VariableName(x)
    case Bin(_, l, r) => Printable(l) && Printable(r)
    case Lambda(x, t, b) => IsToken(x) && PrintableType(t) && Printable(b)
    case App(f, a, tail) => !tail && Printable(f) && Printable(a)
    case Pair(l, r) => Printable(l) && Printable(r)
    case Unpack(a, b, p, body) => IsToken(a) && IsToken(b) && Printable(p) && Printable(body)
    case Left(v) => Printable(v)
    case Right(v) => Printable(v)
    case Match(s, x, l, y, r) => IsToken(x) && IsToken(y) && Printable(s) && Printable(l) && Printable(r)
    case Let(x, v, b) => IsToken(x) && x != "rec" && Printable(v) && Printable(b)
    case LetRec(x, v, b) => IsToken(x) && Printable(v) && Printable(b)
  }

  // ---- The printer: each token is preceded by one space; rest follows the last one ----

  function Word(w: string, rest: string): string { " " + w + rest }

  function OpWord(op: BinOp): string {
    match op
    case Add => "add" case Sub => "sub" case Mul => "mul" case Div => "div"
    case Eq => "eq" case Gt => "gt" case Lt => "lt" case Ge => "ge" case Le => "le"
  }

  function ShowType(t: Type, rest: string): string
    requires PrintableType(t)
  {
    match t
    case TInt => Word("Int", rest)
    case TFloat => Word("Float", rest)
    case TAny => Word("Any", rest)
    case TPair(a, b) => Word("Pair", Word("(", ShowType(a, Word(",", ShowType(b, Word(")", rest))))))
    case TEither(a, b) => Word("Either", Word("(", ShowType(a, Word(",", ShowType(b, Word(")", rest))))))
  }

  /** The first word of a printed expression. */
  function FirstWord(e: Expr): string
    requires Printable(e)
  {
    match e
    case IntLiteral(n) => Digits.Numeral(n)
    case Var(x) => x
    case Bin(op, _, _) => OpWord(op)
    case Lambda(_, _, _) => "\\"
    case App(_, _, _) => "("
    case Pair(_, _) => "pair"
    case Unpack(_, _, _, _) => "unpack"
    case Left(_) => "Left"
    case Right(_) => "Right"
    case Match(_, _, _, _, _) => "match"
    case Let(_, _, _) => "let"
    case LetRec(_, _, _) => "let"
  }

  function Show(e: Expr, rest: string): string
    requires Printable(e)
    decreases e, 1
  {
    Word(FirstWord(e), ShowAfter(e, rest))
  }

  /** `( binder ) => body`, from the binder on. */
  function ShowArm(x: string, body: string): string { Word(x, Word(")", Word("=>", body))) }

  function ShowLeftArm(x: string, body: string): string { Word("{", Word("Left", Word("(", ShowArm(x, body)))) }

  function ShowRightArm(y: string, body: string): string { Word(",", Word("Right", Word("(", ShowArm(y, body)))) }

  /** What follows the first word. */
  function ShowAfter(e: Expr, rest: string): string
    requires Printable(e)
    decreases e, 0
  {
    match e
    case IntLiteral(_) => rest
    case Var(_) => rest
    case Bin(_, l, r) => Show(l, Show(r, rest))
    case Lambda(x, t, b) => Word(x, Word(":", ShowType(t, Word("->", Show(b, rest)))))
    case App(f, a, _) => Show(f, Show(a, Word(")", rest)))
    case Pair(l, r) => Show(l, Show(r, rest))
    case Unpack(a, b, p, body) => Word(a, Word(b, Word("=", Show(p, Word("in", Show(body, rest))))))
    case Left(v) => Word("(", Show(v, Word(")", rest)))
    case Right(v) => Word("(", Show(v, Word(")", rest)))
    case Match(s, x, l, y, r) => Show(s, ShowLeftArm(x, Show(l, ShowRightArm(y, Show(r, Word("}", rest))))))
    case Let(x, v, b) => Word(x, Word("=", Show(v, Word("in", Show(b, rest)))))
    case LetRec(x, v, b) => Word("rec", Word(x, Word("=", Show(v, Word("in", Show(b, rest))))))
  }

  function Size(e: Expr): nat {
    match e
    case IntLiteral(_) => 1
    case FloatLiteral(_) => 1
    case Var(_) => 1
    case Bin(_, l, r) => 1 + Size(l) + Size(r)
    case Lambda(_, _, b) => 1 + Size(b)
    case App(f, a, _) => 1 + Size(f) + Size(a)
    case Pair(l, r) => 1 + Size(l) + Size(r)
    case Unpack(_, _, p, b) => 1 + Size(p) + Size(b)
    case Left(v) => 1 + Size(v)
    case Right(v) => 1 + Size(v)
    case Match(s, _, l, _, r) => 1 + Size(s) + Size(l) + Size(r)
    case Let(_, v, b) => 1 + Size(v) + Size(b)
    case LetRec(_, v, b) => 1 + Size(v) + Size(b)
  }

  // ---- Words come back ----

  lemma {:induction false} PlainWordWhole(w: string, rest: string)
    requires forall i :: 0 <= i < |w| ==> !Breaks(w[i..])
    requires Breaks(rest)
    ensures WordLength(w + rest) == |w|
  {
    if w == "" {
      assert w + rest == rest;
    } else {
      forall i | 0 <= i < |w[1..]| ensures !Breaks(w[1..][i..]) { assert w[1..][i..] == w[i + 1..]; }
      PlainWordWhole(w[1..], rest);
      assert (w + rest)[1..] == w[1..] + rest;
      assert w[0..] == w;
      if |w| == 1 { assert w + rest == [w[0]] + rest; }
    }
  }

  lemma PlainWordStarts(w: string, rest: string)
    requires PlainWord(w) && Breaks(rest)
    ensures !Breaks(w + rest) && w[0] != '@' && !Blank(w[0])
  {
    assert w[0..] == w;
    if |w| == 1 { assert w + rest == [w[0]] + rest; }
  }

  lemma ReadsWord(s: string, w: string, rest: string)
    requires SkipBlank(s) == w + rest && PlainWord(w) && Breaks(rest)
    ensures ReadWord(s) == Token(w, rest)
  {
    var t := w + rest;
    assert t[..|w|] == w && t[|w|..] == rest;
    PlainWordStarts(w, rest);
    PlainWordWhole(w, rest);
  }

  lemma ReadsSign(s: string, w: string, rest: string)
    requires SkipBlank(s) == w + rest && Breaks(rest)
    requires w == "->" || w == "=>" || (|w| == 1 && Special(w[0]) && w[0] != '@')
    ensures ReadWord(s) == Token(w, rest)
  {
    var t := w + rest;
    assert t[..|w|] == w && t[|w|..] == rest && t[0] == w[0];
    if |w| == 1 {
      if rest != "" { assert t[1] == rest[0]; }
    } else {
      assert t[1] == w[1];
    }
  }

  lemma TokenStarts(w: string, rest: string)
    requires IsToken(w)
    ensures SkipBlank(Word(w, rest)) == w + rest && Breaks(Word(w, rest))
  {
    assert Word(w, rest)[1..] == w + rest;
    if PlainWord(w) { assert w[0..] == w; }
    assert !Blank(w[0]) && w[0] != '@';
  }

  lemma WordComesBack(w: string, rest: string)
    requires IsToken(w) && Breaks(rest)
    ensures ReadWord(Word(w, rest)) == Token(w, rest)
    ensures SkipBlank(Word(w, rest)) == w + rest && w[0] != '@'
    ensures Breaks(Word(w, rest))
  {
    TokenStarts(w, rest);
    if PlainWord(w) {
      assert w[0..] == w;
      ReadsWord(Word(w, rest), w, rest);
    } else {
      ReadsSign(Word(w, rest), w, rest);
    }
  }

  lemma ShownTypeBreaks(t: Type, rest: string)
    requires PrintableType(t)
    ensures Breaks(ShowType(t, rest))
  {
  }

  // ---- Numerals ----

  lemma SignedDigitsArePlain(w: string)
    requires w != "" && (w[0] == '-' || Digits.IsDigit(w[0])) && forall i :: 1 <= i < |w| ==> Digits.IsDigit(w[i])
    ensures PlainWord(w)
  {
    forall i | 0 <= i < |w| ensures !Breaks(w[i..]) {
      assert w[i..][0] == w[i];
      if i + 1 < |w| { assert w[i..][1] == w[i + 1]; }
    }
  }

  lemma NumeralIsPlain(n: int)
    ensures PlainWord(Digits.Numeral(n))
    ensures Digits.Numeral(n)[0] == '-' || Digits.IsDigit(Digits.Numeral(n)[0])
  {
    Digits.DecimalRoundTrip(if n < 0 then -n else n);
    SignedDigitsArePlain(Digits.Numeral(n));
  }

  lemma NumeralComesBack(n: i64)
    ensures ParseInt(Digits.Numeral(n)) == Some(n)
  {
    var m: int := n;
    Digits.DecimalRoundTrip(if m < 0 then -m else m);
    var w := Digits.Numeral(n);
    if n < 0 { assert w[1..] == Digits.Decimal(-m); }
  }

  lemma AllLetters(w: string)
    requires w != "" && forall i :: 0 <= i < |w| ==> 'a' <= w[i] <= 'z' || 'A' <= w[i] <= 'Z'
    ensures PlainWord(w)
  {
    forall i | 0 <= i < |w| ensures !Breaks(w[i..]) { assert w[i..][0] == w[i]; }
  }

  predicate FixedWord(w: string) {
    || (Keyword(w) && w != "(" && w != "\\") || w == "Int" || w == "Float" || w == "Any" || w == "Pair" || w == "Either"
    || w == "rec" || w == "in"
  }

  lemma FixedWordsArePlain(w: string)
    requires FixedWord(w)
    ensures PlainWord(w)
  {
    AllLetters(w);
  }

  /** A fixed word or punctuation sign. */
  predicate Fixed(w: string) {
    FixedWord(w) || w == "->" || w == "=>" || (|w| == 1 && Special(w[0]) && w[0] != '@')
  }

  /** Reading it. */
  lemma FixedComesBack(w: string, rest: string)
    requires Fixed(w) && Breaks(rest)
    ensures ReadWord(Word(w, rest)) == Token(w, rest) && Breaks(Word(w, rest))
    ensures SkipBlank(Word(w, rest)) == w + rest && SkipBlank(Word(w, rest)) != ""
    ensures SkipWords(Word(w, rest), 1) == rest
  {
    if FixedWord(w) { FixedWordsArePlain(w); }
    WordComesBack(w, rest);
    assert SkipWords(rest, 0) == rest;
  }

  // ---- The round trip ----

  lemma {:induction false} TypeComesBack(t: Type, rest: string)
    requires PrintableType(t) && Breaks(rest)
    ensures ParseType(ShowType(t, rest)) == Ok(t, rest)
    decreases t, 1
  {
    match t {
      case TInt => FixedComesBack("Int", rest);
      case TFloat => FixedComesBack("Float", rest);
      case TAny => FixedComesBack("Any", rest);
      case TPair(a, b) => TwoTypesComeBack(t, false, a, b, rest);
      case TEither(a, b) => TwoTypesComeBack(t, true, a, b, rest);
    }
  }

  /** A parenthesised pair of types. */
  function TwoTypes(a: Type, b: Type, rest: string): string
    requires PrintableType(a) && PrintableType(b)
  {
    Word("(", ShowType(a, Word(",", ShowType(b, Word(")", rest)))))
  }

  lemma UnfoldTwoTypes(either: bool, s: string, a: Type, s1: string, b: Type, s2: string)
    requires ParseType(SkipWords(s, 1)) == Ok(a, s1) && ParseType(SkipWords(s1, 1)) == Ok(b, s2)
    ensures ParseTwoTypes(either, s) == Ok(if either then TEither(a, b) else TPair(a, b), SkipWords(s2, 1))
  {
  }

  lemma TwoTypeWords(w: string, a: Type, b: Type, rest: string)
    requires w == "Pair" || w == "Either"
    requires PrintableType(a) && PrintableType(b) && Breaks(rest)
    ensures var sb := ShowType(b, Word(")", rest));
            var sa := ShowType(a, Word(",", sb));
            && Breaks(Word(")", rest)) && Breaks(Word(",", sb))
            && ReadWord(Word(w, Word("(", sa))) == Token(w, Word("(", sa))
            && SkipWords(Word("(", sa), 1) == sa && SkipWords(Word(",", sb), 1) == sb
            && SkipWords(Word(")", rest), 1) == rest
  {
    FixedComesBack(")", rest);
    var sb := ShowType(b, Word(")", rest));
    ShownTypeBreaks(b, Word(")", rest));
    FixedComesBack(",", sb);
    var sa := ShowType(a, Word(",", sb));
    ShownTypeBreaks(a, Word(",", sb));
    FixedComesBack("(", sa);
    FixedComesBack(w, Word("(", sa));
  }

  lemma {:induction false} TwoTypesComeBack(t: Type, either: bool, a: Type, b: Type, rest: string)
    requires PrintableType(a) && PrintableType(b) && Breaks(rest)
    requires t == if either then TEither(a, b) else TPair(a, b)
    ensures ParseType(Word(if either then "Either" else "Pair", TwoTypes(a, b, rest))) == Ok(t, rest)
    decreases t, 0
  {
    var w := if either then "Either" else "Pair";
    var sb := ShowType(b, Word(")", rest));
    var sa := ShowType(a, Word(",", sb));
    TwoTypeWords(w, a, b, rest);
    TypeComesBack(a, Word(",", sb));
    TypeComesBack(b, Word(")", rest));
    UnfoldTwoTypes(either, Word("(", sa), a, Word(",", sb), b, Word(")", rest));
    UnfoldType(Word(w, Word("(", sa)), either);
  }

  lemma OpComesBack(op: BinOp)
    ensures FixedWord(OpWord(op)) && LeadOf(OpWord(op)) == BinLead(op)
  {
  }

  lemma LeadsOfWords()
    ensures LeadOf("pair") == PairLead && LeadOf("Left") == LeftLead && LeadOf("Right") == RightLead
    ensures LeadOf("match") == MatchLead && LeadOf("let") == LetLead && LeadOf("unpack") == UnpackLead
    ensures LeadOf("\\") == LambdaLead && LeadOf("(") == ParenLead
  {
  }

  lemma FixedWords()
    ensures FixedWord("pair") && FixedWord("Left") && FixedWord("Right") && FixedWord("match")
    ensures FixedWord("let") && FixedWord("unpack") && FixedWord("in") && FixedWord("rec")
  {
  }

  lemma NumeralIsAtom(w: string)
    requires w != "" && (w[0] == '-' || Digits.IsDigit(w[0]))
    ensures LeadOf(w).AtomLead?
  {
  }

  /** A numeral or a variable. */
  lemma AtomComesBack(e: Expr)
    requires Printable(e) && (e.IntLiteral? || e.Var?)
    ensures LeadOf(FirstWord(e)).AtomLead? && Atom(FirstWord(e)) == e
  {
    if e.IntLiteral? {
      NumeralIsPlain(e.n);
      NumeralComesBack(e.n);
      NumeralIsAtom(Digits.Numeral(e.n));
    }
  }

  lemma FixedWordIsToken(w: string)
    requires FixedWord(w)
    ensures IsToken(w) && w[0] != ')'
  {
    FixedWordsArePlain(w);
    assert w[0..] == w;
  }

  lemma FirstWordIsToken(e: Expr)
    requires Printable(e)
    ensures IsToken(FirstWord(e)) && FirstWord(e)[0] != ')'
  {
    if e.IntLiteral? {
      NumeralIsPlain(e.n);
    } else if e.Var? {
      assert e.name[0..] == e.name;
    } else if e.Bin? {
      OpComesBack(e.op);
      FixedWordIsToken(OpWord(e.op));
    } else if !e.Lambda? && !e.App? {
      FixedWords();
      FixedWordIsToken(FirstWord(e));
    }
  }

  /** A printed expression starts with a space and its first word, never a closing parenthesis. */
  lemma ShownStarts(e: Expr, rest: string)
    requires Printable(e)
    ensures SkipBlank(Show(e, rest)) != "" && SkipBlank(Show(e, rest))[0] != ')'
    ensures Breaks(Show(e, rest))
  {
    FirstWordIsToken(e);
    TokenStarts(FirstWord(e), ShowAfter(e, rest));
  }

  /** Reading the first word leaves the rest of the printed expression. */
  lemma FirstWordComesBack(e: Expr, rest: string)
    requires Printable(e) && Breaks(ShowAfter(e, rest))
    ensures SkipBlank(Show(e, rest)) != ""
    ensures ReadWord(Show(e, rest)) == Token(FirstWord(e), ShowAfter(e, rest))
  {
    FirstWordIsToken(e);
    WordComesBack(FirstWord(e), ShowAfter(e, rest));
  }

  /** Parsing a printed expression, whatever follows it after a break, gives the expression back
      and stops exactly where it ended. */
  lemma {:induction false} ComesBack(e: Expr, rest: string)
    requires Printable(e) && Breaks(rest)
    ensures ParseExpr(Show(e, rest)) == Ok(e, rest)
    decreases Size(e), 4
  {
    AfterComesBack(e, rest);
    FirstWordComesBack(e, rest);
  }

  function LeadFor(e: Expr): Lead {
    if e.Bin? then BinLead(e.op) else if e.Pair? then PairLead
    else if e.Left? then LeftLead else if e.Right? then RightLead
    else if e.Lambda? then LambdaLead else if e.App? then ParenLead
    else if e.Unpack? then UnpackLead else if e.Match? then MatchLead
    else if e.Let? || e.LetRec? then LetLead else AtomLead
  }

  /** The first word selects the production. */
  lemma FirstWordLeads(e: Expr)
    requires Printable(e)
    ensures LeadOf(FirstWord(e)) == LeadFor(e) && (LeadFor(e) == AtomLead ==> Atom(FirstWord(e)) == e)
  {
    if e.Bin? { OpComesBack(e.op); }
    else if e.IntLiteral? || e.Var? { AtomComesBack(e); }
    else { LeadsOfWords(); }
  }

  /** What is parsed after the first word of a printed expression. */
  function Production(e: Expr, s: string): Result<Expr> {
    if e.Bin? then ParseTwo(Some(e.op), s)
    else if e.Pair? then ParseTwo(None, s)
    else if e.Left? || e.Right? then ParseInjection(e.Left?, s)
    else if e.Lambda? then ParseLambda(s)
    else if e.App? then ParseParens(s)
    else if e.Unpack? then ParseUnpack(s)
    else if e.Match? then ParseMatch(s)
    else if e.Let? || e.LetRec? then ParseLet(s)
    else Ok(e, s)
  }

  lemma LeadSelects(e: Expr, w: string, s: string)
    requires LeadFor(e) == AtomLead ==> Atom(w) == e
    ensures ParseLead(LeadFor(e), w, s) == Production(e, s)
  {
  }

  lemma {:induction false} AfterComesBack(e: Expr, rest: string)
    requires Printable(e) && Breaks(rest)
    ensures Breaks(ShowAfter(e, rest))
    ensures ParseAfter(Token(FirstWord(e), ShowAfter(e, rest))) == Ok(e, rest)
    decreases Size(e), 2
  {
    FirstWordLeads(e);
    LeadSelects(e, FirstWord(e), ShowAfter(e, rest));
    ProductionComesBack(e, rest);
  }

  lemma {:induction false} ProductionComesBack(e: Expr, rest: string)
    requires Printable(e) && Breaks(rest)
    ensures Breaks(ShowAfter(e, rest)) && Production(e, ShowAfter(e, rest)) == Ok(e, rest)
    decreases Size(e), 1
  {
    if e.IntLiteral? || e.Var? {
    } else if e.Bin? {
      TwoComeBack(Some(e.op), e.l, e.r, rest);
    } else if e.Pair? {
      TwoComeBack(None, e.fst, e.snd, rest);
    } else if e.Left? || e.Right? {
      InjectionComesBack(e.Left?, e.inner, rest);
    } else if e.Lambda? {
      LambdaComesBack(e, rest);
    } else if e.App? {
      AppComesBack(e, rest);
    } else if e.Unpack? {
      UnpackComesBack(e, rest);
    } else if e.Match? {
      MatchComesBack(e, rest);
    } else {
      LetComesBack(e, rest);
    }
  }

  /** `= value in body` */
  function ValueAndBody(v: Expr, b: Expr, rest: string): string
    requires Printable(v) && Printable(b)
  {
    Word("=", Show(v, Word("in", Show(b, rest))))
  }

  lemma {:induction false} LetComesBack(e: Expr, rest: string)
    requires (e.Let? || e.LetRec?) && Printable(e) && Breaks(rest)
    ensures Breaks(ShowAfter(e, rest)) && ParseLet(ShowAfter(e, rest)) == Ok(e, rest)
    decreases Size(e), 0
  {
    BindingComesBack(e.bound, e.val, e.body, rest);
    if e.LetRec? {
      LeadsOfWords();
      FixedComesBack("rec", Word(e.bound, ValueAndBody(e.val, e.body, rest)));
    }
  }

  lemma {:induction false} TwoComeBack(op: Option<BinOp>, l: Expr, r: Expr, rest: string)
    requires Printable(l) && Printable(r) && Breaks(rest)
    ensures var s := Show(l, Show(r, rest));
            Breaks(s) && ParseTwo(op, s) == Ok(if op.Some? then Bin(op.value, l, r) else Pair(l, r), rest)
    decreases Size(l) + Size(r), 5
  {
    ShownStarts(r, rest);
    ShownStarts(l, Show(r, rest));
    ComesBack(r, rest);
    ComesBack(l, Show(r, rest));
  }

  lemma UnfoldInjection(left: bool, s: string, s1: string, v: Expr, s2: string)
    requires SkipWords(s, 1) == s1 && ParseExpr(s1) == Ok(v, s2)
    ensures ParseInjection(left, s) == Ok(if left then Left(v) else Right(v), SkipWords(s2, 1))
  {
  }

  /** A parenthesised expression after `Left` or `Right`. */
  lemma {:induction false} InjectionComesBack(left: bool, v: Expr, rest: string)
    requires Printable(v) && Breaks(rest)
    ensures var s := Word("(", Show(v, Word(")", rest)));
            Breaks(s) && ParseInjection(left, s) == Ok(if left then Left(v) else Right(v), rest)
    decreases Size(v), 5
  {
    FixedComesBack(")", rest);
    ShownStarts(v, Word(")", rest));
    FixedComesBack("(", Show(v, Word(")", rest)));
    ComesBack(v, Word(")", rest));
    UnfoldInjection(left, Word("(", Show(v, Word(")", rest))), Show(v, Word(")", rest)), v, Word(")", rest));
  }

  lemma LambdaWords(x: string, t: Type, body: string)
    requires IsToken(x) && PrintableType(t) && Breaks(body)
    ensures var ty := ShowType(t, Word("->", body));
            var s := Word(x, Word(":", ty));
            && Breaks(s) && ReadWord(s) == Token(x, Word(":", ty)) && SkipWords(Word(":", ty), 1) == ty
            && Breaks(Word("->", body)) && SkipWords(Word("->", body), 1) == body
  {
    FixedComesBack("->", body);
    var ty := ShowType(t, Word("->", body));
    ShownTypeBreaks(t, Word("->", body));
    FixedComesBack(":", ty);
    WordComesBack(x, Word(":", ty));
  }

  lemma UnfoldLambda(s: string, x: Token, t: Type, s1: string, body: Expr, s2: string)
    requires ReadWord(s) == x && ParseType(SkipWords(x.rest, 1)) == Ok(t, s1)
    requires ParseExpr(SkipWords(s1, 1)) == Ok(body, s2)
    ensures ParseLambda(s) == Ok(Lambda(x.word, t, body), s2)
  {
  }

  lemma {:induction false} LambdaComesBack(e: Expr, rest: string)
    requires e.Lambda? && Printable(e) && Breaks(rest)
    ensures Breaks(ShowAfter(e, rest)) && ParseLambda(ShowAfter(e, rest)) == Ok(e, rest)
    decreases Size(e), 0
  {
    var body := Show(e.body, rest);
    ShownStarts(e.body, rest);
    LambdaWords(e.param, e.paramType, body);
    TypeComesBack(e.paramType, Word("->", body));
    ComesBack(e.body, rest);
    UnfoldLambda(ShowAfter(e, rest), ReadWord(ShowAfter(e, rest)), e.paramType, Word("->", body), e.body, rest);
  }

  lemma UnfoldParens(s: string, f: Expr, s1: string, a: Expr, s2: string)
    requires ParseExpr(s) == Ok(f, s1) && SkipBlank(s1) != "" && SkipBlank(s1)[0] != ')'
    requires ParseExpr(SkipBlank(s1)) == Ok(a, s2)
    ensures ParseParens(s) == Ok(App(f, a, false), SkipWords(s2, 1))
  {
  }

  lemma {:induction false} AppComesBack(e: Expr, rest: string)
    requires e.App? && Printable(e) && Breaks(rest)
    ensures Breaks(ShowAfter(e, rest)) && ParseParens(ShowAfter(e, rest)) == Ok(e, rest)
    decreases Size(e), 0
  {
    FixedComesBack(")", rest);
    var arg := Show(e.arg, Word(")", rest));
    ShownStarts(e.arg, Word(")", rest));
    ShownStarts(e.func, arg);
    ComesBack(e.func, arg);
    ComesBack(e.arg, Word(")", rest));
    SkipFirst(arg);
    UnfoldParens(Show(e.func, arg), e.func, arg, e.arg, Word(")", rest));
  }

  lemma {:induction false} UnpackComesBack(e: Expr, rest: string)
    requires e.Unpack? && Printable(e) && Breaks(rest)
    ensures Breaks(ShowAfter(e, rest)) && ParseUnpack(ShowAfter(e, rest)) == Ok(e, rest)
    decreases Size(e), 0
  {
    var s := ValueAndBody(e.pair, e.body, rest);
    ValueAndBodyComeBack(e.pair, e.body, rest);
    WordComesBack(e.b, s);
    WordComesBack(e.a, Word(e.b, s));
  }

  lemma ValueAndBodyWords(v: Expr, b: Expr, rest: string)
    requires Printable(v) && Printable(b)
    ensures var s1 := Show(v, Word("in", Show(b, rest)));
            && Breaks(ValueAndBody(v, b, rest)) && SkipWords(ValueAndBody(v, b, rest), 1) == s1
            && Breaks(Word("in", Show(b, rest))) && SkipWords(Word("in", Show(b, rest)), 1) == Show(b, rest)
  {
    ShownStarts(b, rest);
    FixedComesBack("in", Show(b, rest));
    ShownStarts(v, Word("in", Show(b, rest)));
    FixedComesBack("=", Show(v, Word("in", Show(b, rest))));
  }

  lemma {:induction false} ValueAndBodyComeBack(v: Expr, b: Expr, rest: string)
    requires Printable(v) && Printable(b) && Breaks(rest)
    ensures var s1 := Show(v, Word("in", Show(b, rest)));
            && Breaks(ValueAndBody(v, b, rest)) && SkipWords(ValueAndBody(v, b, rest), 1) == s1
            && ParseExpr(s1) == Ok(v, Word("in", Show(b, rest)))
            && SkipWords(Word("in", Show(b, rest)), 1) == Show(b, rest)
            && ParseExpr(Show(b, rest)) == Ok(b, rest)
    decreases Size(v) + Size(b), 2
  {
    ValueAndBodyWords(v, b, rest);
    ComesBack(v, Word("in", Show(b, rest)));
    ComesBack(b, rest);
  }

  lemma {:induction false} BindingComesBack(x: string, v: Expr, b: Expr, rest: string)
    requires IsToken(x) && Printable(v) && Printable(b) && Breaks(rest)
    ensures var s := Word(x, ValueAndBody(v, b, rest));
            && Breaks(s) && ReadWord(s) == Token(x, ValueAndBody(v, b, rest))
            && ParseBinding(true, x, ValueAndBody(v, b, rest)) == Ok(LetRec(x, v, b), rest)
            && ParseBinding(false, x, ValueAndBody(v, b, rest)) == Ok(Let(x, v, b), rest)
    decreases Size(v) + Size(b), 3
  {
    ValueAndBodyComeBack(v, b, rest);
    WordComesBack(x, ValueAndBody(v, b, rest));
  }

  // ---- The arms of a match ----

  lemma SkipTwo(s: string, s1: string, s2: string)
    requires SkipWords(s, 1) == s1 && SkipWords(s1, 1) == s2
    ensures SkipWords(s, 2) == s2
  {
    assert SkipWords(s, 1) == SkipWords(ReadWord(s).rest, 0);
    assert SkipWords(s, 2) == SkipWords(s1, 1);
  }

  lemma ArmWords(x: string, body: string)
    requires IsToken(x) && Breaks(body)
    ensures var s := ShowArm(x, body);
            Breaks(s) && ReadWord(s) == Token(x, Word(")", Word("=>", body))) && SkipWords(ReadWord(s).rest, 2) == body
  {
    FixedComesBack("=>", body);
    FixedComesBack(")", Word("=>", body));
    WordComesBack(x, Word(")", Word("=>", body)));
    SkipTwo(Word(")", Word("=>", body)), Word("=>", body), body);
  }

  lemma SkipThree(s: string, s1: string, s2: string, s3: string)
    requires SkipWords(s, 1) == s1 && SkipWords(s1, 1) == s2 && SkipWords(s2, 1) == s3
    ensures SkipWords(s, 3) == s3
  {
    SkipTwo(s1, s2, s3);
    assert SkipWords(s, 1) == SkipWords(ReadWord(s).rest, 0);
    assert SkipWords(s, 3) == SkipWords(s1, 2);
  }

  /** Three words whose reading drops them. */
  lemma ThreeWords(a: string, b: string, c: string, rest: string)
    requires Fixed(a) && Fixed(b) && Fixed(c) && Breaks(rest)
    ensures var s := Word(a, Word(b, Word(c, rest)));
            && Breaks(s) && SkipWords(s, 3) == rest
            && ReadWord(s) == Token(a, Word(b, Word(c, rest))) && SkipWords(SkipWords(Word(b, Word(c, rest)), 1), 1) == rest
  {
    FixedComesBack(c, rest);
    FixedComesBack(b, Word(c, rest));
    FixedComesBack(a, Word(b, Word(c, rest)));
    SkipThree(Word(a, Word(b, Word(c, rest))), Word(b, Word(c, rest)), Word(c, rest), rest);
  }

  lemma ArmStartsFixed()
    ensures Fixed("{") && Fixed("Left") && Fixed("(") && Fixed(",") && Fixed("Right")
  {
    LeadsOfWords();
  }

  lemma ArmsStart(arm: string)
    requires Breaks(arm)
    ensures var s := Word("{", Word("Left", Word("(", arm))); Breaks(s) && SkipWords(s, 3) == arm
    ensures var s := Word(",", Word("Right", Word("(", arm))); Breaks(s) && SkipToArm(s) == arm
  {
    ArmStartsFixed();
    ThreeWords("{", "Left", "(", arm);
    ThreeWords(",", "Right", "(", arm);
  }

  lemma {:induction false} ArmComesBack(x: string, body: Expr, rest: string)
    requires IsToken(x) && Printable(body) && Breaks(rest)
    ensures Breaks(ShowArm(x, Show(body, rest)))
    ensures ParseArm(ShowArm(x, Show(body, rest))) == Ok(Arm(x, body), rest)
    decreases Size(body), 5
  {
    ShownStarts(body, rest);
    ArmWords(x, Show(body, rest));
    ComesBack(body, rest);
  }

  lemma UnfoldMatch(s: string, scrutinee: Expr, s1: string, left: Arm, s2: string, right: Arm, s3: string)
    requires ParseExpr(s) == Ok(scrutinee, s1) && ParseArm(SkipWords(s1, 3)) == Ok(left, s2)
    requires ParseArm(SkipToArm(s2)) == Ok(right, s3)
    ensures ParseMatch(s) == Ok(Match(scrutinee, left.name, left.body, right.name, right.body), SkipWords(s3, 1))
  {
  }

  lemma {:induction false} MatchComesBack(e: Expr, rest: string)
    requires e.Match? && Printable(e) && Breaks(rest)
    ensures Breaks(ShowAfter(e, rest)) && ParseMatch(ShowAfter(e, rest)) == Ok(e, rest)
    decreases Size(e), 0
  {
    var s3 := Word("}", rest);
    FixedComesBack("}", rest);
    var right := ShowArm(e.rVar, Show(e.rBody, s3));
    ArmComesBack(e.rVar, e.rBody, s3);
    ArmsStart(right);
    var s2 := ShowRightArm(e.rVar, Show(e.rBody, s3));
    var left := ShowArm(e.lVar, Show(e.lBody, s2));
    ArmComesBack(e.lVar, e.lBody, s2);
    ArmsStart(left);
    var s1 := ShowLeftArm(e.lVar, Show(e.lBody, s2));
    ShownStarts(e.expr, s1);
    ComesBack(e.expr, s1);
    UnfoldMatch(ShowAfter(e, rest), e.expr, s1, Arm(e.lVar, e.lBody), s2, Arm(e.rVar, e.rBody), s3);
  }

  // ---- The printed text on its own ----

  /** The rendering, tokens separated by single spaces. */
  function Print(e: Expr): string
    requires Printable(e)
  {
    Show(e, "")[1..]
  }

  lemma WordSuffix(w: string, rest: string, suffix: string)
    ensures Word(w, rest + suffix) == Word(w, rest) + suffix
  {
  }

  lemma {:induction false} ShowTypeSuffix(t: Type, rest: string, suffix: string)
    requires PrintableType(t)
    ensures ShowType(t, rest + suffix) == ShowType(t, rest) + suffix
    decreases t, 1
  {
    match t {
      case TInt => WordSuffix("Int", rest, suffix);
      case TFloat => WordSuffix("Float", rest, suffix);
      case TAny => WordSuffix("Any", rest, suffix);
      case TPair(a, b) => TwoTypesSuffix(t, a, b, rest, suffix); WordSuffix("Pair", TwoTypes(a, b, rest), suffix);
      case TEither(a, b) => TwoTypesSuffix(t, a, b, rest, suffix); WordSuffix("Either", TwoTypes(a, b, rest), suffix);
    }
  }

  lemma {:induction false} TwoTypesSuffix(t: Type, a: Type, b: Type, rest: string, suffix: string)
    requires t == TPair(a, b) || t == TEither(a, b)
    requires PrintableType(a) && PrintableType(b)
    ensures TwoTypes(a, b, rest + suffix) == TwoTypes(a, b, rest) + suffix
    decreases t, 0
  {
    WordSuffix(")", rest, suffix);
    ShowTypeSuffix(b, Word(")", rest), suffix);
    WordSuffix(",", ShowType(b, Word(")", rest)), suffix);
    ShowTypeSuffix(a, Word(",", ShowType(b, Word(")", rest))), suffix);
    WordSuffix("(", ShowType(a, Word(",", ShowType(b, Word(")", rest)))), suffix);
  }

  lemma {:induction false} ShowSuffix(e: Expr, rest: string, suffix: string)
    requires Printable(e)
    ensures Show(e, rest + suffix) == Show(e, rest) + suffix
    decreases Size(e), 2
  {
    AfterSuffix(e, rest, suffix);
    WordSuffix(FirstWord(e), ShowAfter(e, rest), suffix);
  }

  lemma {:induction false} ValueAndBodySuffix(v: Expr, b: Expr, rest: string, suffix: string)
    requires Printable(v) && Printable(b)
    ensures ValueAndBody(v, b, rest + suffix) == ValueAndBody(v, b, rest) + suffix
    decreases Size(v) + Size(b), 3
  {
    ShowSuffix(b, rest, suffix);
    WordSuffix("in", Show(b, rest), suffix);
    ValueSuffix(v, Word("in", Show(b, rest)), suffix);
  }

  lemma {:induction false} ValueSuffix(v: Expr, rest: string, suffix: string)
    requires Printable(v)
    ensures Word("=", Show(v, rest + suffix)) == Word("=", Show(v, rest)) + suffix
    decreases Size(v), 3
  {
    ShowSuffix(v, rest, suffix);
    WordSuffix("=", Show(v, rest), suffix);
  }

  lemma ArmSuffix(x: string, body: string, suffix: string)
    ensures ShowArm(x, body + suffix) == ShowArm(x, body) + suffix
  {
    WordSuffix("=>", body, suffix);
    WordSuffix(")", Word("=>", body), suffix);
    WordSuffix(x, Word(")", Word("=>", body)), suffix);
  }

  lemma ThreeWordsSuffix(a: string, b: string, c: string, rest: string, suffix: string)
    ensures Word(a, Word(b, Word(c, rest + suffix))) == Word(a, Word(b, Word(c, rest))) + suffix
  {
    WordSuffix(c, rest, suffix);
    WordSuffix(b, Word(c, rest), suffix);
    WordSuffix(a, Word(b, Word(c, rest)), suffix);
  }

  lemma {:induction false} MatchSuffix(e: Expr, rest: string, suffix: string)
    requires e.Match? && Printable(e)
    ensures ShowAfter(e, rest + suffix) == ShowAfter(e, rest) + suffix
    decreases Size(e), 0
  {
    WordSuffix("}", rest, suffix);
    var right := Show(e.rBody, Word("}", rest));
    ShowSuffix(e.rBody, Word("}", rest), suffix);
    ArmSuffix(e.rVar, right, suffix);
    ThreeWordsSuffix(",", "Right", "(", ShowArm(e.rVar, right), suffix);
    var left := Show(e.lBody, ShowRightArm(e.rVar, right));
    ShowSuffix(e.lBody, ShowRightArm(e.rVar, right), suffix);
    ArmSuffix(e.lVar, left, suffix);
    ThreeWordsSuffix("{", "Left", "(", ShowArm(e.lVar, left), suffix);
    ShowSuffix(e.expr, ShowLeftArm(e.lVar, left), suffix);
  }

  lemma {:induction false} AfterSuffix(e: Expr, rest: string, suffix: string)
    requires Printable(e)
    ensures ShowAfter(e, rest + suffix) == ShowAfter(e, rest) + suffix
    decreases Size(e), 1
  {
    match e {
      case IntLiteral(_) =>
      case Var(_) =>
      case Bin(_, l, r) => ShowSuffix(r, rest, suffix); ShowSuffix(l, Show(r, rest), suffix);
      case Pair(l, r) => ShowSuffix(r, rest, suffix); ShowSuffix(l, Show(r, rest), suffix);
      case Left(v) => ParenSuffix(v, rest, suffix);
      case Right(v) => ParenSuffix(v, rest, suffix);
      case Lambda(x, t, b) =>
        ShowSuffix(b, rest, suffix);
        var arrow := Word("->", Show(b, rest));
        WordSuffix("->", Show(b, rest), suffix);
        ShowTypeSuffix(t, arrow, suffix);
        WordSuffix(":", ShowType(t, arrow), suffix);
        WordSuffix(x, Word(":", ShowType(t, arrow)), suffix);
      case App(f, a, _) =>
        WordSuffix(")", rest, suffix);
        ShowSuffix(a, Word(")", rest), suffix);
        ShowSuffix(f, Show(a, Word(")", rest)), suffix);
      case Unpack(a, b, p, body) =>
        ValueAndBodySuffix(p, body, rest, suffix);
        WordSuffix(b, ValueAndBody(p, body, rest), suffix);
        WordSuffix(a, Word(b, ValueAndBody(p, body, rest)), suffix);
      case Match(_, _, _, _, _) => MatchSuffix(e, rest, suffix);
      case Let(x, v, b) =>
        ValueAndBodySuffix(v, b, rest, suffix);
        WordSuffix(x, ValueAndBody(v, b, rest), suffix);
      case LetRec(x, v, b) =>
        ValueAndBodySuffix(v, b, rest, suffix);
        WordSuffix(x, ValueAndBody(v, b, rest), suffix);
        WordSuffix("rec", Word(x, ValueAndBody(v, b, rest)), suffix);
    }
  }

  lemma {:induction false} ParenSuffix(v: Expr, rest: string, suffix: string)
    requires Printable(v)
    ensures Word("(", Show(v, Word(")", rest + suffix))) == Word("(", Show(v, Word(")", rest))) + suffix
    decreases Size(v), 3
  {
    WordSuffix(")", rest, suffix);
    ShowSuffix(v, Word(")", rest), suffix);
    WordSuffix("(", Show(v, Word(")", rest)), suffix);
  }

  lemma LeadingSpace(t: string)
    ensures ParseExpr(" " + t) == ParseExpr(t)
  {
    var s := " " + t;
    assert s[1..] == t;
    SkipFirst(s);
    SkipFirst(t);
    assert SkipBlank(s) == SkipBlank(t);
  }

  lemma DropSpace(shown: string, suffix: string)
    requires shown != "" && shown[0] == ' '
    ensures ParseExpr(shown[1..] + suffix) == ParseExpr(shown + suffix)
  {
    var t := shown[1..] + suffix;
    assert shown + suffix == " " + t;
    LeadingSpace(t);
  }

  lemma PrintThenParseAt(e: Expr, suffix: string)
    requires Printable(e) && Breaks(suffix)
    ensures ParseExpr(Print(e) + suffix) == Ok(e, suffix)
  {
    ComesBack(e, suffix);
    ShowSuffix(e, "", suffix);
    assert "" + suffix == suffix;
    DropSpace(Show(e, ""), suffix);
  }

  /** The round trip: the rendering of an expression, followed by anything that starts with a
      break, parses to that expression and stops exactly at what follows. */
  lemma PrintThenParse(e: Expr, suffix: string)
    requires Printable(e) && Breaks(suffix)
    ensures ParseExpr(Print(e) + suffix) == Ok(e, suffix)
    ensures Program(Print(e)) == Some(e)
  {
    PrintThenParseAt(e, suffix);
    PrintThenParseAt(e, "");
    assert Print(e) + "" == Print(e);
  }
}
