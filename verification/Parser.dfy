/** The recursive-descent parser (parser.rs) over its mutable position. Each method is proved to
    compute the function of the same name in Grammar on the text that remains; every successful
    parse moves the position strictly forward, which is what makes the recursion end. */
module ParserObject {
  import opened Ast
  import opened Machine
  import G = Grammar

  datatype Answer<T> = Success(value: T) | Failure(error: G.Error)
  {
    predicate IsFailure() { Failure? }
    function PropagateFailure<U>(): Answer<U> requires Failure? { Failure(error) }
    function Extract(): T requires Success? { value }
  }

  class Parser {
    const source: string
    var pos: nat

    predicate Valid()
      reads this
    {
      pos <= |source|
    }

    function Rest(): string
      requires Valid()
      reads this
    {
      source[pos..]
    }

    /** The answer and the new position are those of the grammar. */
    predicate Agrees<T(==)>(answer: Answer<T>, spec: G.Result<T>)
      requires Valid()
      reads this
    {
      match spec
      case Ok(v, rest) => answer == Success(v) && Rest() == rest
      case Bad(e) => answer == Failure(e)
    }

    constructor (source: string)
      ensures Valid() && this.source == source && Rest() == source
    {
      this.source := source;
      pos := 0;
    }

    method SkipWhitespace()
      requires Valid()
      modifies this`pos
      ensures Valid() && old(pos) <= pos
      ensures Rest() == G.SkipBlank(old(Rest()))
    {
      while pos < |source|
        invariant Valid() && old(pos) <= pos
        invariant G.SkipBlank(Rest()) == G.SkipBlank(old(Rest()))
      {
        var c := source[pos];
        assert Rest() == [c] + source[pos + 1..];
        if G.Blank(c) {
          pos := pos + 1;
        } else if c == '@' {
          pos := |source|;
          break;
        } else {
          break;
        }
      }
    }

    method IsEof() returns (eof: bool)
      requires Valid()
      modifies this`pos
      ensures Valid() && eof == (G.SkipBlank(old(Rest())) == "")
    {
      SkipWhitespace();
      eof := pos >= |source|;
    }

    method ReadWord() returns (word: string)
      requires Valid()
      modifies this`pos
      ensures Valid() && old(pos) <= pos && (word != "" ==> old(pos) < pos)
      ensures G.ReadWord(old(Rest())) == G.Token(word, Rest())
    {
      SkipWhitespace();
      if pos >= |source| { return ""; }
      if G.Arrow(source[pos..]) {
        pos := pos + 2;
        return source[pos - 2..pos];
      }
      var c := source[pos];
      if G.Special(c) {
        pos := pos + 1;
        return [c];
      }
      word := ReadRun();
    }

    /** The characters up to the next break. */
    method ReadRun() returns (word: string)
      requires Valid() && !G.Breaks(Rest())
      modifies this`pos
      ensures Valid() && old(pos) < pos
      ensures var n := G.WordLength(old(Rest())); word == old(Rest())[..n] && Rest() == old(Rest())[n..]
    {
      word := "";
      ghost var text, start := Rest(), pos;
      while pos < |source| && !G.Breaks(source[pos..])
        invariant start <= pos <= |source|
        invariant word == source[start..pos]
        invariant G.WordLength(text) == (pos - start) + G.WordLength(Rest())
        invariant pos == start ==> !G.Breaks(Rest())
      {
        assert Rest()[1..] == source[pos + 1..];
        word := word + [source[pos]];
        pos := pos + 1;
      }
      assert word == text[..pos - start];
    }

    /** Read and drop n words. */
    method Skip(n: nat)
      requires Valid()
      modifies this`pos
      ensures Valid() && old(pos) <= pos
      ensures Rest() == G.SkipWords(old(Rest()), n)
    {
      for i := 0 to n
        invariant Valid() && old(pos) <= pos
        invariant G.SkipWords(Rest(), n - i) == G.SkipWords(old(Rest()), n)
      {
        var _ := ReadWord();
      }
    }

    method ParseType() returns (r: Answer<Type>)
      requires Valid()
      modifies this`pos
      ensures Valid() && old(pos) <= pos && Agrees(r, G.ParseType(old(Rest())))
      decreases |source| - pos, 0
    {
      var t := ReadWord();
      match G.TypeWordOf(t)
      case IntWord => r := Success(TInt);
      case FloatWord => r := Success(TFloat);
      case AnyWord => r := Success(TAny);
      case TwoWord(either) => r := ParseTwoTypes(either);
      case NoType => r := Failure(G.UnknownType(t));
    }

    method ParseTwoTypes(either: bool) returns (r: Answer<Type>)
      requires Valid()
      modifies this`pos
      ensures Valid() && old(pos) <= pos && Agrees(r, G.ParseTwoTypes(either, old(Rest())))
      decreases |source| - pos, 1
    {
      Skip(1);
      var t1 :- ParseType();
      Skip(1);
      var t2 :- ParseType();
      Skip(1);
      r := Success(if either then TEither(t1, t2) else TPair(t1, t2));
    }

    method Parse() returns (r: Answer<Expr>)
      requires Valid()
      modifies this`pos
      ensures Valid() && old(pos) <= pos && (r.Success? ==> old(pos) < pos)
      ensures Agrees(r, G.ParseExpr(old(Rest())))
      decreases |source| - pos, 1
    {
      ghost var before := Rest();
      SkipWhitespace();
      if pos >= |source| { return Failure(G.Eof); }
      G.SkipFirst(before);
      var word := ReadWord();
      r := ParseLead(G.LeadOf(word), word);
    }

    /** The production the first word selects. */
    method ParseLead(lead: G.Lead, word: string) returns (r: Answer<Expr>)
      requires Valid()
      modifies this`pos
      ensures Valid() && old(pos) <= pos && Agrees(r, G.ParseLead(lead, word, old(Rest())))
      decreases |source| - pos, 5
    {
      match lead
      case BinLead(op) => r := ParseTwo(Some(op));
      case PairLead => r := ParseTwo(None);
      case LeftLead => r := ParseInjection(true);
      case RightLead => r := ParseInjection(false);
      case MatchLead => r := ParseMatch();
      case LetLead => r := ParseLet();
      case UnpackLead => r := ParseUnpack();
      case LambdaLead => r := ParseLambda();
      case ParenLead => r := ParseParens();
      case AtomLead => r := Success(G.Atom(word));
    }

    method ParseTwo(op: Option<BinOp>) returns (r: Answer<Expr>)
      requires Valid()
      modifies this`pos
      ensures Valid() && old(pos) <= pos && Agrees(r, G.ParseTwo(op, old(Rest())))
      decreases |source| - pos, 2
    {
      var left :- Parse();
      var right :- Parse();
      r := Success(if op.Some? then Bin(op.value, left, right) else Pair(left, right));
    }

    method ParseInjection(left: bool) returns (r: Answer<Expr>)
      requires Valid()
      modifies this`pos
      ensures Valid() && old(pos) <= pos && Agrees(r, G.ParseInjection(left, old(Rest())))
      decreases |source| - pos, 2
    {
      Skip(1);
      var v :- Parse();
      Skip(1);
      r := Success(if left then Left(v) else Right(v));
    }

    method ParseArm() returns (r: Answer<G.Arm>)
      requires Valid()
      modifies this`pos
      ensures Valid() && old(pos) <= pos && Agrees(r, G.ParseArm(old(Rest())))
      decreases |source| - pos, 2
    {
      var name := ReadWord();
      Skip(2);
      var body :- Parse();
      r := Success(G.Arm(name, body));
    }

    method SkipToArm()
      requires Valid()
      modifies this`pos
      ensures Valid() && old(pos) <= pos && Rest() == G.SkipToArm(old(Rest()))
    {
      var next := ReadWord();
      if next == "," { Skip(1); }
      Skip(1);
    }

    method ParseMatch() returns (r: Answer<Expr>)
      requires Valid()
      modifies this`pos
      ensures Valid() && old(pos) <= pos && Agrees(r, G.ParseMatch(old(Rest())))
      decreases |source| - pos, 3
    {
      var scrutinee :- Parse();
      Skip(3);
      var left :- ParseArm();
      SkipToArm();
      var right :- ParseArm();
      Skip(1);
      r := Success(Match(scrutinee, left.name, left.body, right.name, right.body));
    }

    method ParseLet() returns (r: Answer<Expr>)
      requires Valid()
      modifies this`pos
      ensures Valid() && old(pos) <= pos && Agrees(r, G.ParseLet(old(Rest())))
      decreases |source| - pos, 3
    {
      var next := ReadWord();
      if next == "rec" {
        var name := ReadWord();
        r := ParseBinding(true, name);
      } else {
        r := ParseBinding(false, next);
      }
    }

    method ParseBinding(rec: bool, name: string) returns (r: Answer<Expr>)
      requires Valid()
      modifies this`pos
      ensures Valid() && old(pos) <= pos && Agrees(r, G.ParseBinding(rec, name, old(Rest())))
      decreases |source| - pos, 2
    {
      Skip(1);
      var val :- Parse();
      Skip(1);
      var body :- Parse();
      r := Success(if rec then LetRec(name, val, body) else Let(name, val, body));
    }

    method ParseUnpack() returns (r: Answer<Expr>)
      requires Valid()
      modifies this`pos
      ensures Valid() && old(pos) <= pos && Agrees(r, G.ParseUnpack(old(Rest())))
      decreases |source| - pos, 2
    {
      var a := ReadWord();
      var b := ReadWord();
      Skip(1);
      var p :- Parse();
      Skip(1);
      var body :- Parse();
      r := Success(Unpack(a, b, p, body));
    }

    method ParseLambda() returns (r: Answer<Expr>)
      requires Valid()
      modifies this`pos
      ensures Valid() && old(pos) <= pos && Agrees(r, G.ParseLambda(old(Rest())))
      decreases |source| - pos, 2
    {
      var x := ReadWord();
      Skip(1);
      var ty :- ParseType();
      Skip(1);
      var body :- Parse();
      r := Success(Lambda(x, ty, body));
    }

    method ParseParens() returns (r: Answer<Expr>)
      requires Valid()
      modifies this`pos
      ensures Valid() && old(pos) <= pos && Agrees(r, G.ParseParens(old(Rest())))
      decreases |source| - pos, 2
    {
      var first :- Parse();
      SkipWhitespace();
      if pos < |source| && source[pos] == ')' {
        Skip(1);
        return Success(first);
      }
      var second :- Parse();
      Skip(1);
      r := Success(App(first, second, false));
    }
  }
}
