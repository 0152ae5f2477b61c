/**
 How qjs/libregexp.c builds the code of a pattern: instructions are appended to one buffer,
 inserted in front of code already emitted, copied and patched in place.
 */
module RegexpEmit {
  import opened RegexpSyntax
  import opened RegexpCode

  /** re_check_advance, for code without back references. */
  method CheckAdvance(c: Code) returns (r: bool)
    ensures r <==> AlwaysAdvances(c)
    ensures r <==> ReachesTest(c)
  {
    FirstTest(c);
    var known := false;
    r := false;
    var pos := 0;
    while pos < |c|
      invariant 0 <= pos <= |c|
      invariant if known then r == AlwaysAdvances(c) else !r && AlwaysAdvances(c) == AlwaysAdvances(c[pos..])
    {
      assert c[pos..][1..] == c[pos + 1..];
      if c[pos].Test? {
        if !known {
          known, r := true, true;
        }
      } else if !IsNeutral(c[pos]) {
        known := true;
      }
      pos := pos + 1;
    }
    assert !known ==> c[pos..] == [];
  }

  /** The opcodes that re_check_advance passes over: they move nothing, or only backwards and forwards again. */
  ghost predicate Passed(ins: Instr) {
    match ins
    case Check(_) => true
    case PushCount(_) => true
    case PushPos => true
    case Drop => true
    case Prev => true
    case SaveStart => true
    case SaveEnd => true
    case SaveReset => true
    case _ => false
  }

  /** Some opcode reads a character, and all before it are passed over. */
  ghost predicate ReachesTest(c: Code) {
    exists k :: 0 <= k < |c| && c[k].Test? && forall j :: 0 <= j < k ==> Passed(c[j])
  }

  lemma QuantifyShape(c: Code, min: nat, max: Bound, captures: bool)
    ensures var q := Quantify(c, min, max, captures);
            q == if max != AtMost(0) && AllSimple(c) && CharCount(c) > 0 then [SimpleGreedy(|c| + 1, min, max, CharCount(c))] + c + [Match]
                 else if min == 0 then (if captures then [SaveReset] else []) + Optional(c, max)
                 else if min == 1 && max == Infinite && AlwaysAdvances(c) then c + [SplitGotoFirst(-(|c| + 1))]
                 else Mandatory(c, min) + Rest(c, min, max)
  {
    hide AllSimple, CharCount, AlwaysAdvances, Optional, Mandatory, Rest;
  }

  lemma StarShape(c: Code)
    ensures AlwaysAdvances(c) ==> StarCode(c) == [SplitNextFirst(|c| + 1)] + c + [Goto(-(|c| + 2))]
    ensures !AlwaysAdvances(c) ==> StarCode(c) == [SplitNextFirst(|c| + 2), PushPos] + c + [BneCharPos(-(|c| + 3))]
  {
    hide AlwaysAdvances;
  }

  lemma {:induction false} FirstTest(c: Code)
    ensures AlwaysAdvances(c) <==> ReachesTest(c)
    decreases |c|
  {
    if c != [] {
      var t := c[1..];
      FirstTest(t);
      if c[0].Test? {
        assert 0 < |c| && c[0].Test?;
      } else {
        if k :| 0 <= k < |t| && t[k].Test? && forall j :: 0 <= j < k ==> Passed(t[j]) {
          if Passed(c[0]) {
            assert c[k + 1].Test?;
            forall j | 0 <= j < k + 1
              ensures Passed(c[j])
            {
              if j > 0 {
                assert c[j] == t[j - 1];
              }
            }
          }
        }
        if k :| 0 <= k < |c| && c[k].Test? && forall j :: 0 <= j < k ==> Passed(c[j]) {
          assert t[k - 1].Test?;
          forall j | 0 <= j < k - 1
            ensures Passed(t[j])
          {
            assert t[j] == c[j + 1];
          }
        }
      }
    }
  }

  /** re_is_simple_quantifier: -1, or the number of characters of a simple atom. */
  method IsSimpleQuantifier(c: Code) returns (count: int)
    ensures count == -1 <==> !AllSimple(c)
    ensures count >= 0 ==> count == CharCount(c)
    ensures count >= -1
    ensures count == -1 <==> exists k :: 0 <= k < |c| && !c[k].Test? && !c[k].Check?
    ensures count >= 0 ==> count == |set k | 0 <= k < |c| && c[k].Test?|
  {
    count := 0;
    for pos := 0 to |c|
      invariant AllSimple(c[..pos]) && count >= 0 && count + CharCount(c[pos..]) == CharCount(c)
      invariant forall k :: 0 <= k < pos ==> c[k].Test? || c[k].Check?
      invariant count == |set k | 0 <= k < pos && c[k].Test?|
    {
      ghost var before, after := set k | 0 <= k < pos && c[k].Test?, set k | 0 <= k < pos + 1 && c[k].Test?;
      assert after == if c[pos].Test? then before + {pos} else before;
      assert c[pos..][1..] == c[pos + 1..];
      if !IsSimple(c[pos]) {
        return -1;
      }
      if c[pos].Test? {
        count := count + 1;
      }
      assert forall k :: 0 <= k < pos ==> c[..pos + 1][k] == c[..pos][k];
    }
    assert c[..|c|] == c && c[|c|..] == [];
  }

  /** The code of a pattern from the code of its parts. */
  lemma CompileUnfolds(re: Re, back: bool)
    ensures match re
            case Empty => Compile(re, back) == []
            case One(a) => Compile(re, back) == if back then [Prev, Test(a), Prev] else [Test(a)]
            case Assert(k) => Compile(re, back) == [Check(k)]
            case Seq(a, b) =>
              Compile(re, back) == if back then Compile(b, back) + Compile(a, back) else Compile(a, back) + Compile(b, back)
            case Alt(a, b) =>
              Compile(re, back)
              == [SplitNextFirst(|Compile(a, back)| + 1)] + Compile(a, back) + [Goto(|Compile(b, back)|)] + Compile(b, back)
            case Group(b) =>
              Compile(re, back)
              == [if back then SaveEnd else SaveStart] + Compile(b, back) + [if back then SaveStart else SaveEnd]
            case Look(behind, negative, b) =>
              Compile(re, back)
              == [if negative then NegativeLookahead(|Compile(b, behind)| + 1) else Lookahead(|Compile(b, behind)| + 1)]
                 + Compile(b, behind) + [Match]
            case Repeat(b, min, max) => Compile(re, back) == Quantify(Compile(b, back), min, max, HasCapture(b))
  {
    hide Quantify;
  }

  /** The byte_code buffer of REParseState. */
  class Emitter {
    var code: Code
    var captureCount: nat

    constructor ()
      ensures code == [] && captureCount == 1
    {
      code, captureCount := [], 1;
    }

    method Put(ins: Instr)
      modifies this`code
      ensures code == old(code) + [ins]
    {
      code := code + [ins];
    }

    /** dbuf_insert, followed by writing the instructions into the gap. */
    method Insert(pos: nat, c: Code)
      requires pos <= |code|
      modifies this`code
      ensures code == old(code)[..pos] + c + old(code)[pos..]
    {
      code := code[..pos] + c + code[pos..];
    }

    /** dbuf_put_self */
    method PutSelf(pos: nat, len: nat)
      requires pos + len <= |code|
      modifies this`code
      ensures code == old(code) + old(code)[pos..pos + len]
    {
      code := code + code[pos..pos + len];
    }

    /** re_emit_goto: the displacement of a jump to target, written at the end of the buffer. */
    function Back(target: nat): int
      reads this
    {
      target - (|code| + 1)
    }

    /** An unbounded loop, around the code from start on. */
    method Star(start: nat)
      requires start <= |code|
      modifies this`code
      ensures code == old(code)[..start] + StarCode(old(code)[start..])
    {
      hide AlwaysAdvances, ReachesTest, StarCode;
      var c := code[start..];
      StarShape(c);
      var advances := CheckAdvance(c);
      if advances {
        FreeStar(start);
      } else {
        CheckedStar(start);
      }
    }

    method FreeStar(start: nat)
      requires start <= |code|
      modifies this`code
      ensures var c := old(code)[start..]; code == old(code)[..start] + ([SplitNextFirst(|c| + 1)] + c + [Goto(-(|c| + 2))])
    {
      ghost var head, c := code[..start], code[start..];
      Insert(start, [SplitNextFirst(|code| - start + 1)]);
      assert code == head + ([SplitNextFirst(|c| + 1)] + c);
      Put(Goto(Back(start)));
    }

    method CheckedStar(start: nat)
      requires start <= |code|
      modifies this`code
      ensures var c := old(code)[start..]; code == old(code)[..start] + ([SplitNextFirst(|c| + 2), PushPos] + c + [BneCharPos(-(|c| + 3))])
    {
      ghost var head, c := code[..start], code[start..];
      Insert(start, [SplitNextFirst(|code| - start + 2), PushPos]);
      assert code == head + ([SplitNextFirst(|c| + 2), PushPos] + c);
      Put(BneCharPos(Back(start)));
    }

    /** A loop of at most n copies, around the code from start on. */
    method UpTo(start: nat, n: nat)
      requires start <= |code|
      modifies this`code
      ensures code == old(code)[..start] + UpToCode(old(code)[start..], n)
    {
      var c := code[start..];
      Insert(start, [PushCount(n), SplitNextFirst(|c| + 1)]);
      Put(Loop(Back(start + 1)));
      Put(Drop);
    }

    /** {0,max}, around the code from start on. */
    method Optionally(start: nat, max: Bound)
      requires start <= |code|
      modifies this`code
      ensures code == old(code)[..start] + Optional(old(code)[start..], max)
    {
      hide StarCode, UpToCode;
      if max == AtMost(0) {
        code := code[..start];
      } else if max == AtMost(1) {
        Insert(start, [SplitNextFirst(|code| - start)]);
      } else if max == Infinite {
        Star(start);
      } else {
        UpTo(start, max.n);
      }
    }

    /** A counter around the code from start on, for more than one mandatory copy; where the atom now starts. */
    method Mandatorily(start: nat, min: nat) returns (atom: nat)
      requires start <= |code| && min > 0
      modifies this`code
      ensures code == old(code)[..start] + Mandatory(old(code)[start..], min)
      ensures atom + |old(code)[start..]| <= |code| && code[atom..atom + |old(code)[start..]|] == old(code)[start..]
    {
      ghost var head, c := code[..start], code[start..];
      atom := start;
      assert code == head + c;
      if min > 1 {
        Insert(start, [PushCount(min)]);
        assert code == head + ([PushCount(min)] + c);
        atom := start + 1;
        Put(Loop(Back(atom)));
        Put(Drop);
        assert code == head + ([PushCount(min)] + c + [Loop(-(|c| + 1)), Drop]);
        assert code == (head + [PushCount(min)]) + c + [Loop(-(|c| + 1)), Drop];
      }
    }

    /** A copy of the atom behind a split, looped over without a bound. */
    method CopyStar(start: nat, len: nat, advances: bool)
      requires start + len <= |code| && advances == AlwaysAdvances(code[start..start + len])
      modifies this`code
      ensures code == old(code) + StarCode(old(code)[start..start + len])
    {
      hide AlwaysAdvances;
      var pos := |code|;
      ghost var was, c := code, code[start..start + len];
      if advances {
        Put(SplitNextFirst(len + 1));
        PutSelf(start, len);
        assert code == was + ([SplitNextFirst(len + 1)] + c);
        Put(Goto(Back(pos)));
      } else {
        Put(SplitNextFirst(len + 2));
        Put(PushPos);
        PutSelf(start, len);
        assert code == was + ([SplitNextFirst(len + 2), PushPos] + c);
        Put(BneCharPos(Back(pos)));
      }
    }

    /** A copy of the atom behind a split, looped over at most n times. */
    method CopyUpTo(start: nat, len: nat, n: nat)
      requires start + len <= |code|
      modifies this`code
      ensures code == old(code) + UpToCode(old(code)[start..start + len], n)
    {
      ghost var was, c := code, code[start..start + len];
      Put(PushCount(n));
      var pos := |code|;
      Put(SplitNextFirst(len + 1));
      PutSelf(start, len);
      assert code == was + ([PushCount(n), SplitNextFirst(len + 1)] + c);
      Put(Loop(Back(pos)));
      Put(Drop);
    }

    /** What follows the mandatory copies. */
    method Copy(start: nat, len: nat, min: nat, max: Bound, advances: bool)
      requires start + len <= |code| && advances == AlwaysAdvances(code[start..start + len])
      modifies this`code
      ensures code == old(code) + Rest(old(code)[start..start + len], min, max)
    {
      hide AlwaysAdvances, StarCode, UpToCode;
      if max == Infinite {
        CopyStar(start, len, advances);
      } else if max.n > min {
        CopyUpTo(start, len, max.n - min);
      }
    }

    /** The greedy half of the quantifier part of re_parse_term; the atom starts at start. */
    method Quantifier(start: nat, min: nat, max: Bound, captures: bool)
      requires start <= |code|
      modifies this`code
      ensures code == old(code)[..start] + Quantify(old(code)[start..], min, max, captures)
    {
      hide AllSimple, CharCount, AlwaysAdvances, ReachesTest, Rest, Optional, Mandatory, Quantify;
      var c := code[start..];
      QuantifyShape(c, min, max, captures);
      var count := -1;
      if max != AtMost(0) {
        count := IsSimpleQuantifier(c);
      }
      if count > 0 {
        Simple(start, min, max, count);
        return;
      }
      var advances := CheckAdvance(c);
      if min == 0 {
        ResetAndOptionally(start, max, captures);
      } else if min == 1 && max == Infinite && advances {
        ghost var head := code[..start];
        Put(SplitGotoFirst(Back(start)));
        assert code == head + (c + [SplitGotoFirst(-(|c| + 1))]);
      } else {
        Copies(start, min, max, advances);
      }
    }

    /** The single opcode for a simple atom. */
    method Simple(start: nat, min: nat, max: Bound, count: nat)
      requires start <= |code|
      modifies this`code
      ensures var c := old(code)[start..]; code == old(code)[..start] + ([SimpleGreedy(|c| + 1, min, max, count)] + c + [Match])
    {
      ghost var head, c := code[..start], code[start..];
      var len := |code| - start;
      Put(Match);
      assert code[..start] == head && code[start..] == c + [Match];
      Insert(start, [SimpleGreedy(len + 1, min, max, count)]);
    }

    /** The mandatory copies and the rest. */
    method Copies(start: nat, min: nat, max: Bound, advances: bool)
      requires start <= |code| && min >= 1 && (advances <==> AlwaysAdvances(code[start..]))
      modifies this`code
      ensures var c := old(code)[start..]; code == old(code)[..start] + (Mandatory(c, min) + Rest(c, min, max))
    {
      hide AlwaysAdvances, Rest, Mandatory;
      ghost var head, c := code[..start], code[start..];
      var len := |code| - start;
      var atom := Mandatorily(start, min);
      Copy(atom, len, min, max, advances);
    }

    method ResetAndOptionally(start: nat, max: Bound, captures: bool)
      requires start <= |code|
      modifies this`code
      ensures code == old(code)[..start] + ((if captures then [SaveReset] else []) + Optional(old(code)[start..], max))
    {
      hide Optional;
      if captures {
        ghost var was := code;
        Insert(start, [SaveReset]);
        assert code[..start + 1] == was[..start] + [SaveReset] && code[start + 1..] == was[start..];
        Optionally(start + 1, max);
      } else {
        Optionally(start, max);
      }
    }

    /** re_parse_disjunction, re_parse_alternative and re_parse_term on a parsed pattern. */
    method Emit(re: Re, back: bool)
      modifies this
      ensures code == old(code) + Compile(re, back) && captureCount == old(captureCount) + Groups(re)
      decreases Size(re), 0
    {
      hide Quantify, Compile;
      CompileUnfolds(re, back);
      match re
      case Empty =>
      case One(a) => EmitChar(a, back);
      case Assert(k) => Put(Check(k));
      case Seq(a, b) => EmitTerms(a, b, back);
      case Alt(a, b) => EmitAlternatives(a, b, back);
      case Group(b) => EmitGroup(b, back);
      case Look(behind, negative, b) => EmitLook(behind, negative, b);
      case Repeat(b, min, max) => EmitRepeat(b, min, max, back);
    }

    method EmitChar(a: Atom, back: bool)
      modifies this`code
      ensures code == old(code) + if back then [Prev, Test(a), Prev] else [Test(a)]
    {
      if back {
        Put(Prev);
      }
      Put(Test(a));
      if back {
        Put(Prev);
      }
    }

    method EmitGroup(b: Re, back: bool)
      modifies this
      ensures code == old(code) + ([if back then SaveEnd else SaveStart] + Compile(b, back) + [if back then SaveStart else SaveEnd])
      ensures captureCount == old(captureCount) + 1 + Groups(b)
      decreases Size(b), 1
    {
      hide Compile;
      captureCount := captureCount + 1;
      Put(if back then SaveEnd else SaveStart);
      Emit(b, back);
      Put(if back then SaveStart else SaveEnd);
    }

    method EmitRepeat(b: Re, min: nat, max: Bound, back: bool)
      modifies this
      ensures code == old(code) + Quantify(Compile(b, back), min, max, HasCapture(b)) && captureCount == old(captureCount) + Groups(b)
      decreases Size(b), 1
    {
      hide Compile, Quantify;
      var start := |code|;
      ghost var was := code;
      var lastCaptureCount := captureCount;
      Emit(b, back);
      assert code[..start] == was && code[start..] == Compile(b, back);
      CapturesAre(b);
      Quantifier(start, min, max, lastCaptureCount != captureCount);
    }

    /** re_parse_alternative: going backwards, each new term is moved in front of those before it. */
    method EmitTerms(a: Re, b: Re, back: bool)
      modifies this
      ensures code == old(code) + if back then Compile(b, back) + Compile(a, back) else Compile(a, back) + Compile(b, back)
      ensures captureCount == old(captureCount) + Groups(a) + Groups(b)
      decreases Size(a) + Size(b), 1
    {
      hide Compile;
      var start := |code|;
      ghost var was := code;
      Emit(a, back);
      var termStart := |code|;
      Emit(b, back);
      if back {
        assert code[..start] == was && code[start..termStart] == Compile(a, back) && code[termStart..] == Compile(b, back);
        code := code[..start] + code[termStart..] + code[start..termStart];
      }
    }

    /** re_parse_disjunction: a split inserted in front, a goto patched behind. */
    method EmitAlternatives(a: Re, b: Re, back: bool)
      modifies this
      ensures var l, r := Compile(a, back), Compile(b, back);
              code == old(code) + ([SplitNextFirst(|l| + 1)] + l + [Goto(|r|)] + r)
      ensures captureCount == old(captureCount) + Groups(a) + Groups(b)
      decreases Size(a) + Size(b), 1
    {
      hide Compile;
      var start := |code|;
      Emit(a, back);
      var len := |code| - start;
      Insert(start, [SplitNextFirst(len + 1)]);
      var pos := |code|;
      Put(Goto(0));
      Emit(b, back);
      code := code[pos := Goto(|code| - (pos + 1))];
    }

    method EmitLook(behind: bool, negative: bool, b: Re)
      modifies this
      ensures var c := Compile(b, behind);
              code == old(code) + ([if negative then NegativeLookahead(|c| + 1) else Lookahead(|c| + 1)] + c + [Match])
      ensures captureCount == old(captureCount) + Groups(b)
      decreases Size(b), 1
    {
      hide Compile;
      var pos := |code|;
      Put(if negative then NegativeLookahead(0) else Lookahead(0));
      Emit(b, behind);
      Put(Match);
      var len := |code| - (pos + 1);
      code := code[pos := if negative then NegativeLookahead(len) else Lookahead(len)];
    }

    /** lre_compile */
    method Whole(re: Re, sticky: bool)
      modifies this
      requires code == []
      ensures code == Program(re, sticky) && captureCount == old(captureCount) + Groups(re)
    {
      if !sticky {
        Put(SplitGotoFirst(2));
        Put(Test(AnyChar));
        Put(Goto(-3));
      }
      Put(SaveStart);
      Emit(re, false);
      Put(SaveEnd);
      Put(Match);
    }
  }
}
