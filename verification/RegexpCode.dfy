/**
 The code qjs/libregexp.c generates for a pattern.

 Instructions stand for the opcodes of libregexp-opcode.h; jump operands are counted in
 instructions instead of bytes and are relative to the following instruction, as in the
 source, so that code can be moved and copied.  Capture numbers are left out.
 */
module RegexpCode {
  import opened RegexpSyntax

  datatype Instr =
    | Test(atom: Atom)
    | Check(kind: Assertion)
    | Goto(d: int)
    | SplitGotoFirst(d: int)
    | SplitNextFirst(d: int)
    | Match
    | SaveStart
    | SaveEnd
    | SaveReset
    | Loop(d: int)
    | PushCount(n: nat)
    | Drop
    | Lookahead(d: int)
    | NegativeLookahead(d: int)
    | PushPos
    | BneCharPos(d: int)
    | Prev
    | SimpleGreedy(d: int, min: nat, max: Bound, count: nat)

  type Code = seq<Instr>

  // ---- the two scans over generated code ----

  predicate IsNeutral(ins: Instr) {
    ins.Check? || ins.PushCount? || ins.PushPos? || ins.Drop? || ins.Prev? || ins.SaveStart? || ins.SaveEnd? || ins.SaveReset?
  }

  /** re_check_advance, without back references: whether the code certainly moves the character pointer. */
  predicate AlwaysAdvances(c: Code) {
    c != [] && (c[0].Test? || (IsNeutral(c[0]) && AlwaysAdvances(c[1..])))
  }

  predicate IsSimple(ins: Instr) {
    ins.Test? || ins.Check?
  }

  /** re_is_simple_quantifier accepts the code. */
  predicate AllSimple(c: Code) {
    forall k :: 0 <= k < |c| ==> IsSimple(c[k])
  }

  /** re_is_simple_quantifier: the number of characters of a simple atom. */
  function CharCount(c: Code): nat {
    if c == [] then 0 else (if c[0].Test? then 1 else 0) + CharCount(c[1..])
  }

  // ---- compilation ----

  /** The number of captures the parser opens in a pattern. */
  function Groups(re: Re): nat {
    match re
    case Seq(a, b) => Groups(a) + Groups(b)
    case Alt(a, b) => Groups(a) + Groups(b)
    case Group(b) => 1 + Groups(b)
    case Repeat(b, _, _) => Groups(b)
    case Look(_, _, b) => Groups(b)
    case _ => 0
  }

  lemma {:induction false} CapturesAre(re: Re)
    ensures HasCapture(re) <==> Groups(re) > 0
    decreases re
  {
    match re
    case Seq(a, b) =>
      CapturesAre(a);
      CapturesAre(b);
    case Alt(a, b) =>
      CapturesAre(a);
      CapturesAre(b);
    case Repeat(b, _, _) => CapturesAre(b);
    case Look(_, _, b) => CapturesAre(b);
    case _ =>
  }

  predicate HasCapture(re: Re) {
    match re
    case Seq(a, b) => HasCapture(a) || HasCapture(b)
    case Alt(a, b) => HasCapture(a) || HasCapture(b)
    case Group(_) => true
    case Repeat(b, _, _) => HasCapture(b)
    case Look(_, _, b) => HasCapture(b)
    case _ => false
  }

  /** re_parse_term, re_parse_alternative and re_parse_disjunction; back is is_backward_dir. */
  function Compile(re: Re, back: bool): Code {
    match re
    case Empty => []
    case One(a) => if back then [Prev, Test(a), Prev] else [Test(a)]
    case Assert(k) => [Check(k)]
    case Seq(a, b) => if back then Compile(b, back) + Compile(a, back) else Compile(a, back) + Compile(b, back)
    case Alt(a, b) =>
      var l, r := Compile(a, back), Compile(b, back);
      [SplitNextFirst(|l| + 1)] + l + [Goto(|r|)] + r
    case Group(b) => if back then [SaveEnd] + Compile(b, back) + [SaveStart] else [SaveStart] + Compile(b, back) + [SaveEnd]
    case Look(behind, negative, b) =>
      var c := Compile(b, behind);
      [if negative then NegativeLookahead(|c| + 1) else Lookahead(|c| + 1)] + c + [Match]
    case Repeat(b, min, max) => Quantify(Compile(b, back), min, max, HasCapture(b))
  }

  /** The greedy part of the quantifier code: one of seven shapes. */
  function Quantify(c: Code, min: nat, max: Bound, captures: bool): Code {
    if max != AtMost(0) && AllSimple(c) && CharCount(c) > 0 then
      [SimpleGreedy(|c| + 1, min, max, CharCount(c))] + c + [Match]
    else if min == 0 then (if captures then [SaveReset] else []) + Optional(c, max)
    else if min == 1 && max == Infinite && AlwaysAdvances(c) then c + [SplitGotoFirst(-(|c| + 1))]
    else Mandatory(c, min) + Rest(c, min, max)
  }

  /** {0,max} */
  function Optional(c: Code, max: Bound): Code {
    if max == AtMost(0) then []
    else if max == AtMost(1) then [SplitNextFirst(|c|)] + c
    else if max == Infinite then StarCode(c)
    else UpToCode(c, max.n)
  }

  /** Exactly min copies through a counter. */
  function Mandatory(c: Code, min: nat): Code {
    if min == 1 then c else [PushCount(min)] + c + [Loop(-(|c| + 1)), Drop]
  }

  /** What may follow the mandatory copies: a copy of the atom in a loop. */
  function Rest(c: Code, min: nat, max: Bound): Code {
    if max == Infinite then StarCode(c)
    else if max.n > min then UpToCode(c, max.n - min)
    else []
  }

  /** An unbounded loop; the position is checked when the atom may match the empty string. */
  function StarCode(c: Code): Code {
    if AlwaysAdvances(c) then [SplitNextFirst(|c| + 1)] + c + [Goto(-(|c| + 2))]
    else [SplitNextFirst(|c| + 2), PushPos] + c + [BneCharPos(-(|c| + 3))]
  }

  /** At most n copies through a counter. */
  function UpToCode(c: Code, n: nat): Code {
    [PushCount(n), SplitNextFirst(|c| + 1)] + c + [Loop(-(|c| + 2)), Drop]
  }

  /** lre_compile: unless the pattern is sticky, every start position is tried in order. */
  function Program(re: Re, sticky: bool): Code {
    (if sticky then [] else [SplitGotoFirst(2), Test(AnyChar), Goto(-3)])
    + [SaveStart] + Compile(re, false) + [SaveEnd, Match]
  }

  /** c sits in code at p. */
  ghost predicate CodeAt(code: Code, p: nat, c: Code) {
    p + |c| <= |code| && code[p..p + |c|] == c
  }

  lemma CodeAtSub(code: Code, p: nat, c: Code, k: nat, d: Code)
    requires CodeAt(code, p, c) && k + |d| <= |c| && c[k..k + |d|] == d
    ensures CodeAt(code, p + k, d)
  {
    forall j | 0 <= j < |d|
      ensures code[p + k + j] == d[j]
    {
      assert code[p + (k + j)] == code[p..p + |c|][k + j] == c[k..k + |d|][j];
    }
  }

  lemma CodeAtConcat(code: Code, p: nat, c: Code, d: Code)
    requires CodeAt(code, p, c + d)
    ensures CodeAt(code, p, c) && CodeAt(code, p + |c|, d)
  {
    assert (c + d)[0..0 + |c|] == c && (c + d)[|c|..|c| + |d|] == d;
    CodeAtSub(code, p, c + d, 0, c);
    CodeAtSub(code, p, c + d, |c|, d);
  }

  lemma CodeAtIndex(code: Code, p: nat, c: Code, k: nat)
    requires CodeAt(code, p, c) && k < |c|
    ensures p + k < |code| && code[p + k] == c[k]
  {
    assert code[p + k] == code[p..p + |c|][k];
  }
}
