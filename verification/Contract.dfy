/** One contract from text to ledger commit (lib.rs, autarky_execute): trim, parse, erase, evaluate in
    the seeded environment, commit. Here the theorems about the single stages meet. */
module Contract {
  import opened Machine
  import Ast
  import Ir
  import Vm
  import Scope
  import Erasure
  import CommentWall
  import RoundTrip
  import TxId
  import opened Grammar

  // ---- Trimming, as Rust's str::trim ----

  function TrimStart(s: string): string {
    if s != "" && IsWhitespace(s[0]) then TrimStart(s[1..]) else s
  }

  function TrimEnd(s: string): string {
    if s != "" && IsWhitespace(s[|s| - 1]) then TrimEnd(s[..|s| - 1]) else s
  }

  function Trim(s: string): string { TrimEnd(TrimStart(s)) }

  function Utf8Char(c: int): seq<u8>
    requires 0 <= c < 0x11_0000
  {
    if c < 0x80 then [c]
    else if c < 0x800 then [0xC0 + c / 0x40, 0x80 + c % 0x40]
    else if c < 0x1_0000 then [0xE0 + c / 0x1000, 0x80 + c / 0x40 % 0x40, 0x80 + c % 0x40]
    else [0xF0 + c / 0x4_0000, 0x80 + c / 0x1000 % 0x40, 0x80 + c / 0x40 % 0x40, 0x80 + c % 0x40]
  }

  /** UTF-8, the bytes the transaction id is computed from. */
  function Utf8(s: string): seq<u8> {
    if s == "" then [] else Utf8Char(s[0] as int) + Utf8(s[1..])
  }

  // ---- The entry point ----

  datatype Verdict =
    | Empty
    | Refused(parse: Grammar.Error)
    | TrailingText
    | Running
    | Crashed
    | Faulted(fault: Vm.Error)
    | Committed(value: Vm.Value, volume: i32, hash: u64)

  /** `v as i32`: the low 32 bits. Anything but an integer has volume zero. */
  function Volume(v: Vm.Value): (r: i32)
    ensures if v.IntV? then (r - v.n) % TWO_32 == 0 else r == 0
  {
    if v.IntV? then (v.n + 0x8000_0000) % 0x1_0000_0000 - 0x8000_0000 else 0
  }

  function Conclude(o: Vm.Outcome, source: string, nonce: u64): Verdict {
    match o
    case Done(v, _) => Committed(v, Volume(v), TxId.Id(Utf8(source), Volume(v), nonce))
    case Fault(e, _) => Faulted(e)
    case Halted(_) => Crashed
    case OutOfFuel => Running
  }

  function Run(fuel: nat, e: Ast.Expr, polls: Vm.Polls): Vm.Outcome {
    Vm.Evaluate(fuel, Scope.Seeded(), Ir.EraseProofs(e), polls, 0)
  }

  /** What becomes of a source once it is parsed. */
  function Judge(parse: Result<Ast.Expr>, fuel: nat, source: string, nonce: u64, polls: Vm.Polls): Verdict {
    match parse
    case Bad(e) => Refused(e)
    case Ok(e, rest) => if SkipBlank(rest) != "" then TrailingText else Conclude(Run(fuel, e, polls), source, nonce)
  }

  function Execute(fuel: nat, text: string, nonce: u64, polls: Vm.Polls): Verdict {
    var source := Trim(text);
    if source == "" then Empty else
    Judge(ParseExpr(source), fuel, source, nonce, polls)
  }

  /** Same value and same volume; only the hash of the text may differ. */
  predicate SameVerdict(a: Verdict, b: Verdict) {
    if a.Committed? then b.Committed? && b.value == a.value && b.volume == a.volume else b == a
  }

  // ---- Trimming and comment walls are invisible ----

  /** Parsing t gives what parsing s gives, up to what is left over. */
  predicate SameParse(s: Result<Ast.Expr>, t: Result<Ast.Expr>) {
    match s
    case Bad(e) => t == Bad(e)
    case Ok(e, rest) => t.Ok? && t.value == e && (SkipBlank(t.rest) == "" <==> SkipBlank(rest) == "")
  }

  lemma SameParseSameVerdict(
      parse: Result<Ast.Expr>, reparse: Result<Ast.Expr>, fuel: nat, s: string, t: string, nonce: u64, polls: Vm.Polls)
    requires SameParse(parse, reparse)
    ensures SameVerdict(Judge(parse, fuel, s, nonce, polls), Judge(reparse, fuel, t, nonce, polls))
  {
  }

  lemma {:induction false} StartTrimmed(s: string)
    ensures ParseExpr(TrimStart(s)) == ParseExpr(s)
  {
    if s != "" && IsWhitespace(s[0]) {
      StartTrimmed(s[1..]);
      SkipFirst(s);
      SkipFirst(s[1..]);
      assert SkipBlank(s) == SkipBlank(s[1..]);
    }
  }

  lemma {:induction false} BlankFront(front: string, z: string)
    requires SkipBlank(front) == "" && SkipBlank(z) == ""
    ensures SkipBlank(front + z) == ""
  {
    if front == "" {
      assert front + z == z;
    } else if Blank(front[0]) {
      assert (front + z)[1..] == front[1..] + z;
      BlankFront(front[1..], z);
    }
  }

  lemma {:induction false} EndTrimmed(s: string)
    ensures SameParse(ParseExpr(TrimEnd(s)), ParseExpr(s))
    ensures TrimEnd(s) == "" ==> SkipBlank(s) == ""
  {
    if s != "" && IsWhitespace(s[|s| - 1]) {
      var front, z := s[..|s| - 1], [s[|s| - 1]];
      EndTrimmed(front);
      assert s == front + z && Blank(z[0]) && z[1..] == "";
      CommentWall.SilentSuffix(front, z);
      if TrimEnd(s) == "" { BlankFront(front, z); }
    }
  }

  lemma TrimInvisible(s: string)
    ensures SameParse(ParseExpr(Trim(s)), ParseExpr(s))
  {
    StartTrimmed(s);
    EndTrimmed(TrimStart(s));
  }

  lemma {:induction false} TrimStopsAtWall(p: string, q: string)
    ensures TrimStart(p + "@" + q) == TrimStart(p) + "@" + q
  {
    if p != "" && IsWhitespace(p[0]) {
      assert (p + "@" + q)[1..] == p[1..] + "@" + q;
      TrimStopsAtWall(p[1..], q);
    } else if p == "" {
      assert p + "@" + q == "@" + q;
    }
  }

  lemma {:induction false} WallStopsTrim(x: string, q: string)
    ensures TrimEnd(x + "@" + q) == x + "@" + TrimEnd(q)
  {
    var s := x + "@" + q;
    if q != "" && IsWhitespace(q[|q| - 1]) {
      assert s[..|s| - 1] == x + "@" + q[..|q| - 1];
      WallStopsTrim(x, q[..|q| - 1]);
    } else if q == "" {
      assert s == x + "@";
    }
  }

  lemma TrimOfWalled(p: string, q: string)
    ensures Trim(p + "@" + q) == TrimStart(p) + "@" + TrimEnd(q)
  {
    TrimStopsAtWall(p, q);
    WallStopsTrim(TrimStart(p), q);
  }

  lemma WalledParse(p: string, q: string)
    ensures SameParse(ParseExpr(Trim(p)), ParseExpr(Trim(p + "@" + q)))
  {
    TrimOfWalled(p, q);
    CommentWall.TheWall(TrimStart(p), TrimEnd(q));
    EndTrimmed(TrimStart(p));
  }

  /** Text after an `@` neither changes what a contract answers nor what volume it commits. The one
      visible difference: an empty contract is noticed by the parser instead of the emptiness test. */
  lemma WallCommitsTheSame(fuel: nat, p: string, q: string, nonce: u64, polls: Vm.Polls)
    ensures var plain, walled := Execute(fuel, p, nonce, polls), Execute(fuel, p + "@" + q, nonce, polls);
            if plain.Empty? then walled == Refused(Eof) else SameVerdict(plain, walled)
  {
    var s, t := Trim(p), Trim(p + "@" + q);
    TrimOfWalled(p, q);
    WalledParse(p, q);
    SameParseSameVerdict(ParseExpr(s), ParseExpr(t), fuel, s, t, nonce, polls);
    if s == "" { assert ParseExpr("") == Bad(Eof); }
  }

  // ---- From a syntax tree to its ledger commit ----

  /** The environment of a contract, at the level of the surface syntax. */
  function SeededSurface(): Erasure.Env {
    map["SYS_COMPUTE" := Erasure.IntS(1000), "SYS_CREDITS" := Erasure.IntS(500)]
  }

  lemma SeedsErase()
    ensures Erasure.EraseEnv(SeededSurface()) == Scope.Seeded()
  {
  }

  /** The verdict an outcome of the surface semantics calls for. */
  predicate Answers(o: Erasure.Outcome, v: Verdict) {
    match o
    case Done(x, _) => v.Committed? && v.value == Erasure.EraseValue(x) && v.volume == Volume(v.value)
    case Fault(e, _) => v == Faulted(e)
    case Halted(_) => v == Crashed
    case OutOfFuel => v == Running
  }

  lemma RunMeans(fuel: nat, e: Ast.Expr, polls: Vm.Polls, source: string, nonce: u64)
    ensures Answers(Erasure.Means(fuel, SeededSurface(), e, polls, 0), Conclude(Run(fuel, e, polls), source, nonce))
  {
    SeedsErase();
    Erasure.ErasurePreservesMeaning(fuel, SeededSurface(), e, polls, 0);
  }

  /** A contract that is accepted answers what its syntax tree means, annotations ignored. */
  lemma ExecuteMeans(fuel: nat, text: string, nonce: u64, polls: Vm.Polls)
    ensures match Program(text)
            case Some(e) => Answers(Erasure.Means(fuel, SeededSurface(), e, polls, 0), Execute(fuel, text, nonce, polls))
            case None => var v := Execute(fuel, text, nonce, polls); v.Empty? || v.Refused? || v.TrailingText?
  {
    TrimInvisible(text);
    var source := Trim(text);
    if source != "" && ParseExpr(source).Ok? {
      RunMeans(fuel, ParseExpr(source).value, polls, source, nonce);
    }
    if source == "" { assert ParseExpr(source) == Bad(Eof); }
  }

  /** Print a tree, put a comment wall and anything at all behind it, execute: the answer is the
      meaning of the tree. */
  lemma PrintedContractMeans(fuel: nat, e: Ast.Expr, q: string, nonce: u64, polls: Vm.Polls)
    requires RoundTrip.Printable(e)
    ensures Answers(Erasure.Means(fuel, SeededSurface(), e, polls, 0),
                    Execute(fuel, RoundTrip.Print(e) + "@" + q, nonce, polls))
  {
    RoundTrip.PrintThenParse(e, "");
    CommentWall.TheWall(RoundTrip.Print(e), q);
    ExecuteMeans(fuel, RoundTrip.Print(e) + "@" + q, nonce, polls);
  }

  /** A contract over the two system names and POLL never faults with an unbound variable. */
  lemma AcceptedNeverUnbound(strict: bool, fuel: nat, text: string, nonce: u64, polls: Vm.Polls)
    requires Program(text).Some?
    requires Scope.Admissible(strict, Ir.EraseProofs(Program(text).value))
    requires Scope.FreeVars(strict, Ir.EraseProofs(Program(text).value)) <= {"SYS_COMPUTE", "SYS_CREDITS"}
    ensures var v := Execute(fuel, text, nonce, polls); v.Faulted? ==> !v.fault.Unbound?
  {
    TrimInvisible(text);
    Scope.ContractNeverUnbound(strict, fuel, Ir.EraseProofs(Program(text).value), polls);
  }

  /** Two commits of the same text, whatever the network and the fuel contributed: with the same volume the
      ids are equal exactly if the timer stood still, and with the same timer value exactly if the volumes
      are equal. */
  lemma RerunsAreDistinct(
      fuel: nat, again: nat, text: string, m: u64, n: u64, polls: Vm.Polls, later: Vm.Polls)
    requires Execute(fuel, text, m, polls).Committed? && Execute(again, text, n, later).Committed?
    ensures var a, b := Execute(fuel, text, m, polls), Execute(again, text, n, later);
            && (a.volume == b.volume ==> (a.hash == b.hash <==> m == n))
            && (m == n ==> (a.hash == b.hash <==> a.volume == b.volume))
  {
    var source := Utf8(Trim(text));
    var a, b := Execute(fuel, text, m, polls), Execute(again, text, n, later);
    TxId.DistinctNonces(source, a.volume, m, n);
    TxId.DistinctVolumes(source, a.volume, b.volume, m);
  }

  /** More fuel never changes a verdict that was reached. */
  lemma VerdictIsFinal(fuel: nat, more: nat, text: string, nonce: u64, polls: Vm.Polls)
    requires fuel <= more && !Execute(fuel, text, nonce, polls).Running?
    ensures Execute(more, text, nonce, polls) == Execute(fuel, text, nonce, polls)
  {
    match ParseExpr(Trim(text)) {
      case Bad(_) =>
      case Ok(e, rest) =>
        if !Run(fuel, e, polls).OutOfFuel? {
          Vm.MoreFuelSameOutcome(fuel, more, Scope.Seeded(), Ir.EraseProofs(e), polls, 0);
        }
    }
  }
}
