/**
 Character classes inside a compiled pattern: the range opcode emitted for a class decides, for
 every character of the input, what the class says, so the machine may test classes by opcode.
 */
module RegexpClasses {
  import opened RegexpSyntax
  import opened RegexpCode
  import RegexpAssertions
  import CharRanges

  // ---- which patterns ----

  /** The points of a class are as the set operations leave them. */
  predicate ClassesCanonical(re: Re) {
    match re
    case One(a) => a.Class? ==> CharRanges.Canonical(a.points)
    case Seq(a, b) => ClassesCanonical(a) && ClassesCanonical(b)
    case Alt(a, b) => ClassesCanonical(a) && ClassesCanonical(b)
    case Group(b) => ClassesCanonical(b)
    case Repeat(b, _, _) => ClassesCanonical(b)
    case Look(_, _, b) => ClassesCanonical(b)
    case _ => true
  }

  /** The single-character tests a pattern is written with. */
  function Atoms(re: Re): set<Atom> {
    match re
    case One(a) => {a}
    case Seq(a, b) => Atoms(a) + Atoms(b)
    case Alt(a, b) => Atoms(a) + Atoms(b)
    case Group(b) => Atoms(b)
    case Repeat(b, _, _) => Atoms(b)
    case Look(_, _, b) => Atoms(b)
    case _ => {}
  }

  /** Every class of the pattern has an opcode. */
  predicate ClassesFit(re: Re) {
    match re
    case One(a) => a.Class? ==> |a.points| / 2 < 65535
    case Seq(a, b) => ClassesFit(a) && ClassesFit(b)
    case Alt(a, b) => ClassesFit(a) && ClassesFit(b)
    case Group(b) => ClassesFit(b)
    case Repeat(b, _, _) => ClassesFit(b)
    case Look(_, _, b) => ClassesFit(b)
    case _ => true
  }

  /** The classes of a pattern as the parser meets them: emitting stops at one with too many ranges. */
  method EmitClasses(re: Re) returns (ok: bool)
    requires ClassesCanonical(re)
    ensures !ok <==> exists a :: a in Atoms(re) && a.Class? && |a.points| / 2 >= 65535
    decreases re
  {
    match re
    case One(a) =>
      if a.Class? {
        var e := CharRanges.EmitRange(a.points);
        ok := e.Emitted?;
        assert a in Atoms(re);
      } else {
        ok := true;
      }
    case Seq(a, b) =>
      var first := EmitClasses(a);
      var second := EmitClasses(b);
      ok := first && second;
    case Alt(a, b) =>
      var first := EmitClasses(a);
      var second := EmitClasses(b);
      ok := first && second;
    case Group(b) => ok := EmitClasses(b);
    case Repeat(b, _, _) => ok := EmitClasses(b);
    case Look(_, _, b) => ok := EmitClasses(b);
    case _ => ok := true;
  }

  lemma {:induction false} ClassesFitThen(re: Re)
    requires forall a :: a in Atoms(re) && a.Class? ==> |a.points| / 2 < 65535
    ensures ClassesFit(re)
    decreases re
  {
    match re
    case Seq(a, b) =>
      ClassesFitThen(a);
      ClassesFitThen(b);
    case Alt(a, b) =>
      ClassesFitThen(a);
      ClassesFitThen(b);
    case Group(b) => ClassesFitThen(b);
    case Repeat(b, _, _) => ClassesFitThen(b);
    case Look(_, _, b) => ClassesFitThen(b);
    case One(a) => assert a in Atoms(re);
    case _ =>
  }

  predicate AtomOk(a: Atom) {
    a.Class? ==> CharRanges.Canonical(a.points) && |a.points| / 2 < 65535
  }

  /** Every class tested by the code has an opcode. */
  ghost predicate TestsOk(c: Code) {
    forall k :: 0 <= k < |c| && c[k].Test? ==> AtomOk(c[k].atom)
  }

  /** Characters are below the number that stands for infinity. */
  ghost predicate PlainInput(x: Input) {
    forall k :: 0 <= k < |x.w| ==> x.w[k] < CharRanges.Max32
  }

  // ---- compilation keeps classes ----

  lemma TestsConcat(a: Code, b: Code)
    ensures TestsOk(a + b) <==> TestsOk(a) && TestsOk(b)
  {
    hide AtomOk;
    if TestsOk(a + b) {
      forall k | 0 <= k < |a| && a[k].Test?
        ensures AtomOk(a[k].atom)
      {
        assert (a + b)[k] == a[k];
      }
      forall k | 0 <= k < |b| && b[k].Test?
        ensures AtomOk(b[k].atom)
      {
        assert (a + b)[|a| + k] == b[k];
      }
    }
  }

  lemma TestsAround(a: Code, c: Code, b: Code)
    requires TestsOk(a) && TestsOk(c) && TestsOk(b)
    ensures TestsOk(a + c + b)
  {
    TestsConcat(a, c);
    TestsConcat(a + c, b);
  }

  lemma OptionalTests(c: Code, max: Bound)
    requires TestsOk(c)
    ensures TestsOk(Optional(c, max)) && TestsOk(StarCode(c)) && forall n: nat :: TestsOk(UpToCode(c, n))
  {
    hide AtomOk, AlwaysAdvances;
    TestsConcat([SplitNextFirst(|c|)], c);
    TestsAround([SplitNextFirst(|c| + 1)], c, [Goto(-(|c| + 2))]);
    TestsAround([SplitNextFirst(|c| + 2), PushPos], c, [BneCharPos(-(|c| + 3))]);
    forall n: nat
      ensures TestsOk(UpToCode(c, n))
    {
      TestsAround([PushCount(n), SplitNextFirst(|c| + 1)], c, [Loop(-(|c| + 2)), Drop]);
    }
  }

  lemma QuantifyTests(c: Code, min: nat, max: Bound, captures: bool)
    requires TestsOk(c)
    ensures TestsOk(Quantify(c, min, max, captures))
  {
    hide TestsOk, AllSimple, CharCount, AlwaysAdvances, Optional, StarCode, UpToCode;
    OptionalTests(c, max);
    assert TestsOk([]) && TestsOk([SaveReset]) by { NoTests(); }
    TestsConcat([SaveReset], Optional(c, max));
    TestsConcat([], Optional(c, max));
    QuantifyParts(c, min, max);
    TestsConcat(Mandatory(c, min), Rest(c, min, max));
  }

  lemma NoTests()
    ensures TestsOk([]) && TestsOk([SaveReset])
  {
  }

  lemma QuantifyParts(c: Code, min: nat, max: Bound)
    requires TestsOk(c)
    ensures TestsOk([SimpleGreedy(|c| + 1, min, max, CharCount(c))] + c + [Match])
    ensures TestsOk(c + [SplitGotoFirst(-(|c| + 1))])
    ensures TestsOk(Mandatory(c, min)) && TestsOk(Rest(c, min, max))
  {
    hide TestsOk, Mandatory, Rest, CharCount;
    OneTest(SimpleGreedy(|c| + 1, min, max, CharCount(c)));
    OneTest(Match);
    OneTest(SplitGotoFirst(-(|c| + 1)));
    TestsAround([SimpleGreedy(|c| + 1, min, max, CharCount(c))], c, [Match]);
    TestsConcat(c, [SplitGotoFirst(-(|c| + 1))]);
    MandatoryTests(c, min);
    RestTests(c, min, max);
  }

  lemma MandatoryTests(c: Code, min: nat)
    requires TestsOk(c)
    ensures TestsOk(Mandatory(c, min))
  {
    hide TestsOk;
    OneTest(PushCount(min));
    LoopTests(-(|c| + 1));
    TestsAround([PushCount(min)], c, [Loop(-(|c| + 1)), Drop]);
  }

  lemma RestTests(c: Code, min: nat, max: Bound)
    requires TestsOk(c)
    ensures TestsOk(Rest(c, min, max))
  {
    hide TestsOk, StarCode, UpToCode;
    NoTests();
    OptionalTests(c, max);
  }

  lemma OneTest(ins: Instr)
    requires !ins.Test?
    ensures TestsOk([ins])
  {
  }

  lemma LoopTests(d: int)
    ensures TestsOk([Loop(d), Drop])
  {
  }

  /** The classes of the code are those of the pattern. */
  lemma {:induction false} CompileTests(re: Re, back: bool)
    requires ClassesCanonical(re) && ClassesFit(re)
    ensures TestsOk(Compile(re, back))
    decreases re
  {
    hide AtomOk, TestsOk, Quantify;
    match re
    case Empty => assert TestsOk([]) by { NoTests(); }
    case One(a) => OneTests(a, back);
    case Assert(k) => assert TestsOk([Check(k)]) by { CheckTests(k); }
    case Seq(a, b) =>
      CompileTests(a, back);
      CompileTests(b, back);
      TestsConcat(Compile(a, back), Compile(b, back));
      TestsConcat(Compile(b, back), Compile(a, back));
    case Alt(a, b) =>
      CompileTests(a, back);
      CompileTests(b, back);
      AltTests(Compile(a, back), Compile(b, back));
    case Group(b) =>
      CompileTests(b, back);
      GroupTests(Compile(b, back));
    case Look(behind, negative, b) =>
      CompileTests(b, behind);
      LookTests(Compile(b, behind), negative);
    case Repeat(b, min, max) =>
      CompileTests(b, back);
      QuantifyTests(Compile(b, back), min, max, HasCapture(b));
  }

  lemma OneTests(a: Atom, back: bool)
    requires AtomOk(a)
    ensures TestsOk(Compile(One(a), back))
  {
  }

  lemma CheckTests(k: Assertion)
    ensures TestsOk([Check(k)])
  {
  }

  lemma AltTests(l: Code, r: Code)
    requires TestsOk(l) && TestsOk(r)
    ensures TestsOk([SplitNextFirst(|l| + 1)] + l + [Goto(|r|)] + r)
  {
    hide AtomOk;
    TestsAround([SplitNextFirst(|l| + 1)], l, [Goto(|r|)]);
    TestsConcat([SplitNextFirst(|l| + 1)] + l + [Goto(|r|)], r);
  }

  lemma GroupTests(c: Code)
    requires TestsOk(c)
    ensures TestsOk([SaveEnd] + c + [SaveStart]) && TestsOk([SaveStart] + c + [SaveEnd])
  {
    hide AtomOk;
    TestsAround([SaveEnd], c, [SaveStart]);
    TestsAround([SaveStart], c, [SaveEnd]);
  }

  lemma LookTests(c: Code, negative: bool)
    requires TestsOk(c)
    ensures TestsOk([if negative then NegativeLookahead(|c| + 1) else Lookahead(|c| + 1)] + c + [Match])
  {
    hide AtomOk;
    TestsAround([if negative then NegativeLookahead(|c| + 1) else Lookahead(|c| + 1)], c, [Match]);
  }

  lemma ProgramTests(re: Re, sticky: bool)
    requires ClassesCanonical(re) && ClassesFit(re)
    ensures TestsOk(Program(re, sticky))
  {
    hide AtomOk, Compile;
    CompileTests(re, false);
    var search: Code := if sticky then [] else [SplitGotoFirst(2), Test(AnyChar), Goto(-3)];
    assert TestsOk(search) by { assert AtomOk(AnyChar) by { AnyOk(); } }
    TestsConcat(search, [SaveStart]);
    TestsAround(search + [SaveStart], Compile(re, false), [SaveEnd, Match]);
  }

  lemma AnyOk()
    ensures AtomOk(AnyChar)
  {
  }

  // ---- testing by opcode ----

  /** A class, from its points through the opcode of re_emit_range to the answer of the machine. */
  method ClassAccepts(points: seq<nat>, c: nat) returns (matched: bool)
    requires CharRanges.Canonical(points) && |points| / 2 < 65535 && c < CharRanges.Max32
    ensures matched <==> InPoints(points, c)
  {
    var e := CharRanges.EmitRange(points);
    CharRanges.DenotesOrdered(e.op, points);
    matched := CharRanges.Test(e.op, c);
    CharRanges.RangeOpIsSet(e.op, points, c);
  }

  /** The single-character opcodes of the machine. */
  method AcceptsChar(a: Atom, c: Char) returns (ok: bool)
    requires AtomOk(a) && c < CharRanges.Max32
    ensures ok <==> Accepts(a, c)
  {
    match a
    case Exactly(x) => ok := x == c;
    case Dot =>
      var ends := RegexpAssertions.TestLineTerminator(c);
      RegexpAssertions.SameCharacters(c);
      ok := !ends;
    case AnyChar => ok := true;
    case Class(points) => ok := ClassAccepts(points, c);
  }
}
