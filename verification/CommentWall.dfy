/** Text after an `@` never influences the parse, nor do trailing blanks: two runs, one on p and one
    on p followed by silent text z, kept in step through every branch of the grammar. */
module CommentWall {
  import opened Machine
  import opened Ast
  import opened Grammar

  /** Nothing but blanks, up to the end or to a comment sign. */
  predicate Silent(z: string) { z != "" && SkipBlank(z) == "" }

  /** The walled run is at the same place as the plain one, or both have nothing left to read. */
  predicate InStep(walled: string, plain: string, z: string) {
    Silent(z) && (walled == plain + z || (SkipBlank(walled) == "" && SkipBlank(plain) == ""))
  }

  lemma {:induction false} BlanksInStep(walled: string, plain: string, z: string)
    requires InStep(walled, plain, z)
    ensures InStep(SkipBlank(walled), SkipBlank(plain), z)
    ensures SkipBlank(walled) == "" <==> SkipBlank(plain) == ""
    decreases |plain|
  {
    if walled == plain + z {
      if plain == "" {
        assert walled == z;
      } else if Blank(plain[0]) {
        assert walled[1..] == plain[1..] + z;
        BlanksInStep(walled[1..], plain[1..], z);
      }
    }
  }

  lemma {:induction false} LengthInStep(plain: string, z: string)
    requires Silent(z)
    ensures WordLength(plain + z) == WordLength(plain)
    ensures Arrow(plain + z) == Arrow(plain)
  {
    assert Blank(z[0]) || z[0] == '@';
    var walled := plain + z;
    if plain == "" {
      assert walled == z;
    } else if !Breaks(plain) {
      assert walled[1..] == plain[1..] + z;
      LengthInStep(plain[1..], z);
    }
  }

  lemma WordsInStep(walled: string, plain: string, z: string)
    requires InStep(walled, plain, z)
    ensures ReadWord(walled).word == ReadWord(plain).word
    ensures InStep(ReadWord(walled).rest, ReadWord(plain).rest, z)
  {
    BlanksInStep(walled, plain, z);
    var w, p := SkipBlank(walled), SkipBlank(plain);
    if p != "" {
      LengthInStep(p, z);
      var n := if Arrow(p) then 2 else if Special(p[0]) then 1 else WordLength(p);
      assert w[..n] == p[..n] && w[n..] == p[n..] + z;
    }
  }

  lemma {:induction false} SkipsInStep(walled: string, plain: string, z: string, n: nat)
    requires InStep(walled, plain, z)
    ensures InStep(SkipWords(walled, n), SkipWords(plain, n), z)
    decreases n
  {
    if n > 0 {
      WordsInStep(walled, plain, z);
      SkipsInStep(ReadWord(walled).rest, ReadWord(plain).rest, z, n - 1);
    }
  }

  ghost predicate ResultsInStep<T>(walled: Result<T>, plain: Result<T>, z: string) {
    match plain
    case Ok(v, rest) => walled.Ok? && walled.value == v && InStep(walled.rest, rest, z)
    case Bad(e) => walled == Bad(e)
  }

  lemma OneTypeInStep(walled: string, plain: string, z: string)
    requires InStep(walled, plain, z) && !TypeWordOf(ReadWord(plain).word).TwoWord?
    requires ReadWord(walled).word == ReadWord(plain).word && InStep(ReadWord(walled).rest, ReadWord(plain).rest, z)
    ensures ResultsInStep(ParseType(walled), ParseType(plain), z)
  {
  }

  lemma {:induction false} TypesInStep(walled: string, plain: string, z: string)
    requires InStep(walled, plain, z)
    ensures ResultsInStep(ParseType(walled), ParseType(plain), z)
    decreases |plain|, 0
  {
    WordsInStep(walled, plain, z);
    var w, p := ReadWord(walled), ReadWord(plain);
    if TypeWordOf(p.word).TwoWord? {
      UnfoldType(walled, TypeWordOf(p.word).either);
      UnfoldType(plain, TypeWordOf(p.word).either);
      TwoTypesInStep(TypeWordOf(p.word).either, w.rest, p.rest, z);
    } else {
      OneTypeInStep(walled, plain, z);
    }
  }

  lemma {:induction false} TwoTypesInStep(either: bool, walled: string, plain: string, z: string)
    requires InStep(walled, plain, z)
    ensures ResultsInStep(ParseTwoTypes(either, walled), ParseTwoTypes(either, plain), z)
    decreases |plain|, 1
  {
    SkipsInStep(walled, plain, z, 1);
    TypesInStep(SkipWords(walled, 1), SkipWords(plain, 1), z);
    var t, u := ParseType(SkipWords(walled, 1)), ParseType(SkipWords(plain, 1));
    if u.Ok? {
      SkipsInStep(t.rest, u.rest, z, 1);
      TypesInStep(SkipWords(t.rest, 1), SkipWords(u.rest, 1), z);
      var t', u' := ParseType(SkipWords(t.rest, 1)), ParseType(SkipWords(u.rest, 1));
      if u'.Ok? { SkipsInStep(t'.rest, u'.rest, z, 1); }
    }
  }

  lemma {:induction false} ExprsInStep(walled: string, plain: string, z: string)
    requires InStep(walled, plain, z)
    ensures ResultsInStep(ParseExpr(walled), ParseExpr(plain), z)
    decreases |plain|, 1
  {
    BlanksInStep(walled, plain, z);
    WordsInStep(walled, plain, z);
    if SkipBlank(plain) != "" { AfterInStep(ReadWord(walled), ReadWord(plain), z); }
  }

  lemma {:induction false} AfterInStep(walled: Token, plain: Token, z: string)
    requires walled.word == plain.word && InStep(walled.rest, plain.rest, z)
    ensures ResultsInStep(ParseAfter(walled), ParseAfter(plain), z)
    decreases |plain.rest|, 6
  {
    LeadInStep(LeadOf(plain.word), plain.word, walled.rest, plain.rest, z);
  }

  lemma {:induction false} LeadInStep(lead: Lead, word: string, w: string, p: string, z: string)
    requires InStep(w, p, z)
    ensures ResultsInStep(ParseLead(lead, word, w), ParseLead(lead, word, p), z)
    decreases |p|, 5
  {
    match lead
    case BinLead(op) => TwoInStep(Some(op), w, p, z);
    case PairLead => TwoInStep(None, w, p, z);
    case LeftLead => InjectionsInStep(true, w, p, z);
    case RightLead => InjectionsInStep(false, w, p, z);
    case MatchLead => MatchesInStep(w, p, z);
    case LetLead => LetsInStep(w, p, z);
    case UnpackLead => UnpacksInStep(w, p, z);
    case LambdaLead => LambdasInStep(w, p, z);
    case ParenLead => ParensInStep(w, p, z);
    case AtomLead =>
  }

  lemma {:induction false} TwoInStep(op: Option<BinOp>, walled: string, plain: string, z: string)
    requires InStep(walled, plain, z)
    ensures ResultsInStep(ParseTwo(op, walled), ParseTwo(op, plain), z)
    decreases |plain|, 2
  {
    ExprsInStep(walled, plain, z);
    var e, d := ParseExpr(walled), ParseExpr(plain);
    if d.Ok? { ExprsInStep(e.rest, d.rest, z); }
  }

  lemma {:induction false} InjectionsInStep(left: bool, walled: string, plain: string, z: string)
    requires InStep(walled, plain, z)
    ensures ResultsInStep(ParseInjection(left, walled), ParseInjection(left, plain), z)
    decreases |plain|, 2
  {
    SkipsInStep(walled, plain, z, 1);
    ExprsInStep(SkipWords(walled, 1), SkipWords(plain, 1), z);
    var e, d := ParseExpr(SkipWords(walled, 1)), ParseExpr(SkipWords(plain, 1));
    if d.Ok? { SkipsInStep(e.rest, d.rest, z, 1); }
  }

  lemma {:induction false} LetsInStep(walled: string, plain: string, z: string)
    requires InStep(walled, plain, z)
    ensures ResultsInStep(ParseLet(walled), ParseLet(plain), z)
    decreases |plain|, 4
  {
    WordsInStep(walled, plain, z);
    var x, y := ReadWord(walled), ReadWord(plain);
    if y.word == "rec" {
      WordsInStep(x.rest, y.rest, z);
      BindingsInStep(true, ReadWord(y.rest).word, ReadWord(x.rest).rest, ReadWord(y.rest).rest, z);
    } else {
      BindingsInStep(false, y.word, x.rest, y.rest, z);
    }
  }

  lemma {:induction false} UnpacksInStep(walled: string, plain: string, z: string)
    requires InStep(walled, plain, z)
    ensures ResultsInStep(ParseUnpack(walled), ParseUnpack(plain), z)
    decreases |plain|, 3
  {
    WordsInStep(walled, plain, z);
    var a, b := ReadWord(walled), ReadWord(plain);
    WordsInStep(a.rest, b.rest, z);
    ValueAndBodyInStep(ReadWord(a.rest).rest, ReadWord(b.rest).rest, z);
  }

  lemma {:induction false} LambdasInStep(walled: string, plain: string, z: string)
    requires InStep(walled, plain, z)
    ensures ResultsInStep(ParseLambda(walled), ParseLambda(plain), z)
    decreases |plain|, 2
  {
    WordsInStep(walled, plain, z);
    var x, y := ReadWord(walled), ReadWord(plain);
    SkipsInStep(x.rest, y.rest, z, 1);
    TypesInStep(SkipWords(x.rest, 1), SkipWords(y.rest, 1), z);
    var t, u := ParseType(SkipWords(x.rest, 1)), ParseType(SkipWords(y.rest, 1));
    if u.Ok? {
      SkipsInStep(t.rest, u.rest, z, 1);
      ExprsInStep(SkipWords(t.rest, 1), SkipWords(u.rest, 1), z);
    }
  }

  lemma {:induction false} ParensInStep(walled: string, plain: string, z: string)
    requires InStep(walled, plain, z)
    ensures ResultsInStep(ParseParens(walled), ParseParens(plain), z)
    decreases |plain|, 2
  {
    ExprsInStep(walled, plain, z);
    var e, d := ParseExpr(walled), ParseExpr(plain);
    if d.Ok? {
      BlanksInStep(e.rest, d.rest, z);
      var a, b := SkipBlank(e.rest), SkipBlank(d.rest);
      SkipsInStep(a, b, z, 1);
      ExprsInStep(a, b, z);
      if ParseExpr(b).Ok? { SkipsInStep(ParseExpr(a).rest, ParseExpr(b).rest, z, 1); }
    }
  }

  /** One skipped word, an expression, one skipped word, an expression. */
  lemma {:induction false} ValueAndBodyInStep(walled: string, plain: string, z: string)
    requires InStep(walled, plain, z)
    ensures var e, d := ParseExpr(SkipWords(walled, 1)), ParseExpr(SkipWords(plain, 1));
            && ResultsInStep(e, d, z)
            && (d.Ok? ==> ResultsInStep(ParseExpr(SkipWords(e.rest, 1)), ParseExpr(SkipWords(d.rest, 1)), z))
    decreases |plain|, 2
  {
    SkipsInStep(walled, plain, z, 1);
    ExprsInStep(SkipWords(walled, 1), SkipWords(plain, 1), z);
    var e, d := ParseExpr(SkipWords(walled, 1)), ParseExpr(SkipWords(plain, 1));
    if d.Ok? {
      SkipsInStep(e.rest, d.rest, z, 1);
      ExprsInStep(SkipWords(e.rest, 1), SkipWords(d.rest, 1), z);
    }
  }

  lemma {:induction false} BindingsInStep(rec: bool, name: string, walled: string, plain: string, z: string)
    requires InStep(walled, plain, z)
    ensures ResultsInStep(ParseBinding(rec, name, walled), ParseBinding(rec, name, plain), z)
    decreases |plain|, 3
  {
    ValueAndBodyInStep(walled, plain, z);
  }

  lemma {:induction false} ArmsInStep(walled: string, plain: string, z: string)
    requires InStep(walled, plain, z)
    ensures ResultsInStep(ParseArm(walled), ParseArm(plain), z)
    decreases |plain|, 2
  {
    WordsInStep(walled, plain, z);
    var x, x' := ReadWord(walled), ReadWord(plain);
    SkipsInStep(x.rest, x'.rest, z, 2);
    ExprsInStep(SkipWords(x.rest, 2), SkipWords(x'.rest, 2), z);
  }

  lemma SeparatorsInStep(walled: string, plain: string, z: string)
    requires InStep(walled, plain, z)
    ensures InStep(SkipToArm(walled), SkipToArm(plain), z)
  {
    WordsInStep(walled, plain, z);
    var n, m := ReadWord(walled), ReadWord(plain);
    SkipsInStep(n.rest, m.rest, z, 1);
    if m.word == "," { SkipsInStep(SkipWords(n.rest, 1), SkipWords(m.rest, 1), z, 1); }
  }

  lemma {:induction false} MatchesInStep(walled: string, plain: string, z: string)
    requires InStep(walled, plain, z)
    ensures ResultsInStep(ParseMatch(walled), ParseMatch(plain), z)
    decreases |plain|, 3
  {
    ExprsInStep(walled, plain, z);
    var e, d := ParseExpr(walled), ParseExpr(plain);
    if d.Ok? {
      SkipsInStep(e.rest, d.rest, z, 3);
      ArmsInStep(SkipWords(e.rest, 3), SkipWords(d.rest, 3), z);
      var l, l' := ParseArm(SkipWords(e.rest, 3)), ParseArm(SkipWords(d.rest, 3));
      if l'.Ok? {
        SeparatorsInStep(l.rest, l'.rest, z);
        ArmsInStep(SkipToArm(l.rest), SkipToArm(l'.rest), z);
        var r, r' := ParseArm(SkipToArm(l.rest)), ParseArm(SkipToArm(l'.rest));
        if r'.Ok? { SkipsInStep(r.rest, r'.rest, z, 1); }
      }
    }
  }

  /** Silent text after a program changes nothing: same tree or same error, and the same
      end-of-input verdict. */
  lemma SilentSuffix(p: string, z: string)
    requires z != "" && SkipBlank(z) == ""
    ensures var longer, plain := ParseExpr(p + z), ParseExpr(p);
            match plain
            case Bad(e) => longer == Bad(e)
            case Ok(v, rest) => longer.Ok? && longer.value == v && (SkipBlank(longer.rest) == "" <==> SkipBlank(rest) == "")
    ensures Program(p + z) == Program(p)
  {
    ExprsInStep(p + z, p, z);
    var longer, plain := ParseExpr(p + z), ParseExpr(p);
    if plain.Ok? { BlanksInStep(longer.rest, plain.rest, z); }
  }

  /** Whatever follows an `@`, whatever precedes it. */
  lemma TheWall(p: string, q: string)
    ensures var walled, plain := ParseExpr(p + "@" + q), ParseExpr(p);
            match plain
            case Bad(e) => walled == Bad(e)
            case Ok(v, rest) => walled.Ok? && walled.value == v && (SkipBlank(walled.rest) == "" <==> SkipBlank(rest) == "")
    ensures Program(p + "@" + q) == Program(p)
  {
    assert p + "@" + q == p + ("@" + q);
    SilentSuffix(p, "@" + q);
  }
}
