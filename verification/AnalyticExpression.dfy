/** The bytecode of analytic expressions: its meaning step by step, and the stack bound computed
    without running it (AnalyticExpression, src/alg_functions.cc:263-533). */
module Bytecode {
  import opened Common
  import opened ModArith
  import opened FFMod
  import opened IntegerMath

  const ADD: nat := 0
  const MUL: nat := 1
  const NEG: nat := 2
  const POW: nat := 3
  const VAR: nat := 4
  const NEGPOW: nat := 5
  const SMALLNUM: nat := 6
  const MEDNUM: nat := 7
  const BIGNUM: nat := 8
  const VARPOW: nat := 9
  const END: nat := 10

  type Code = seq<nat>

  /** The top is the last element. */
  type Stack = seq<nat>

  /** The modulus, the inputs and the tables of large numbers and of powers of inputs. */
  datatype Env = Env(p: nat, input: seq<nat>, bignums: seq<nat>, varpows: seq<nat>)

  predicate AllBelow(s: seq<nat>, p: nat) {
    forall i :: 0 <= i < |s| ==> s[i] < p
  }

  ghost predicate ValidEnv(env: Env) {
    IsPrime(env.p) && AllBelow(env.input, env.p) && AllBelow(env.bignums, env.p) && AllBelow(env.varpows, env.p)
  }

  function Top(s: Stack): nat
    requires s != []
  {
    s[|s| - 1]
  }

  function Pop(s: Stack): (r: Stack)
    requires s != []
    ensures |r| == |s| - 1
  {
    s[..|s| - 1]
  }

  function Drop(s: Stack, n: nat): Stack
    requires n <= |s|
  {
    s[..|s| - n]
  }

  // ---- one instruction ----

  /** The result of an instruction, a division by zero, or an instruction that cannot be executed:
      too few operands, an operand that is no residue, an index out of range, truncated code. */
  datatype StepResult = Next(ip: nat, stack: Stack) | DivisionByZero | Undefined

  function SumTop(s: Stack, n: nat, acc: nat, p: nat): nat
    requires n <= |s| && p > 0
    decreases n
  {
    if n == 0 then acc else SumTop(Pop(s), n - 1, (acc + Top(s)) % p, p)
  }

  function ProductTop(s: Stack, n: nat, acc: nat, p: nat): nat
    requires n <= |s| && p > 0
    decreases n
  {
    if n == 0 then acc else ProductTop(Pop(s), n - 1, acc * Top(s) % p, p)
  }

  /** A count on top of at least that many residues. */
  predicate Operands(s: Stack, p: nat) {
    s != [] && 1 <= Top(s) < |s| && AllBelow(s[|s| - 1 - Top(s)..|s| - 1], p)
  }

  /** The number in len bytes, most significant first, in a 64-bit word. */
  function ReadNumber(code: Code, ip: nat, len: nat, acc: nat): nat
    requires ip + len <= |code|
    decreases len
  {
    if len == 0 then acc else ReadNumber(code, ip + 1, len - 1, acc * 256 % B + code[ip])
  }

  /** The exponent parameter of power is a 32-bit word. */
  function Exponent(b: nat): nat {
    b % 0x1_0000_0000
  }

  ghost function Step(code: Code, ip: nat, s: Stack, env: Env): (r: StepResult)
    requires ValidEnv(env) && ip < |code|
    ensures r.Next? ==> ip < r.ip <= |code|
  {
    var i := code[ip];
    if i == ADD then
      if !Operands(s, env.p) then Undefined else
        var n := Top(s);
        Next(ip + 1, Drop(s, n + 1) + [SumTop(Pop(Pop(s)), n - 1, Top(Pop(s)), env.p)])
    else if i == MUL then
      if !Operands(s, env.p) then Undefined else
        var n := Top(s);
        Next(ip + 1, Drop(s, n + 1) + [ProductTop(Pop(Pop(s)), n - 1, Top(Pop(s)), env.p)])
    else if i == NEG then
      if s == [] || Top(s) >= env.p then Undefined else Next(ip + 1, Pop(s) + [(0 - Top(s)) % env.p])
    else if i == POW then
      if |s| < 2 || Top(Pop(s)) >= env.p then Undefined else
        Next(ip + 1, Drop(s, 2) + [Pow(Top(Pop(s)), Exponent(Top(s))) % env.p])
    else if i == NEGPOW then
      if |s| < 2 || Top(Pop(s)) >= env.p then Undefined
      else if Top(Pop(s)) == 0 then DivisionByZero
      else
        PowerNotZero(Top(Pop(s)), Exponent(Top(s)), env.p);
        Next(ip + 1, Drop(s, 2) + [Inverse(Pow(Top(Pop(s)), Exponent(Top(s))) % env.p, env.p)])
    else if i == VAR then
      if s == [] || Top(s) >= |env.input| then Undefined else Next(ip + 1, Pop(s) + [env.input[Top(s)]])
    else if i == BIGNUM then
      if s == [] || Top(s) >= |env.bignums| then Undefined else Next(ip + 1, Pop(s) + [env.bignums[Top(s)]])
    else if i == VARPOW then
      if s == [] || Top(s) >= |env.varpows| then Undefined else Next(ip + 1, Pop(s) + [env.varpows[Top(s)]])
    else if i == SMALLNUM then
      if ip + 2 > |code| then Undefined else Next(ip + 2, s + [code[ip + 1]])
    else if i == MEDNUM then
      if ip + 2 > |code| || ip + 2 + code[ip + 1] > |code| then Undefined else
        Next(ip + 2 + code[ip + 1], s + [ReadNumber(code, ip + 2, code[ip + 1], 0)])
    else Undefined
  }

  /** A power of a non-zero residue is not zero. */
  lemma {:induction false} PowNotZero(a: int, k: nat, p: int)
    requires IsPrime(p) && !Cong(a, 0, p)
    ensures !Cong(Pow(a, k), 0, p)
    decreases k
  {
    if k == 0 {
      if Cong(1, 0, p) {
        CongUnique(1, 0, p);
      }
    } else {
      PowNotZero(a, k - 1, p);
      if Cong(Pow(a, k), 0, p) {
        EuclidPrime(a, Pow(a, k - 1), p);
      }
    }
  }

  lemma PowerNotZero(a: nat, k: nat, p: nat)
    requires IsPrime(p) && 0 < a < p
    ensures 0 < Pow(a, k) % p < p
  {
    if Cong(a, 0, p) {
      CongUnique(a, 0, p);
    }
    PowNotZero(a, k, p);
    CongMod(Pow(a, k), p);
    if Pow(a, k) % p == 0 {
      CongSym(0, Pow(a, k), p);
    }
  }

  predicate PopsCount(i: nat) {
    i == ADD || i == MUL
  }

  // ---- a run ----

  datatype Outcome = Done(stack: Stack) | Failed | Stuck

  ghost function Exec(code: Code, ip: nat, s: Stack, env: Env): Outcome
    requires ValidEnv(env)
    decreases |code| - ip
  {
    if ip >= |code| then Stuck
    else if code[ip] == END then Done(s)
    else match Step(code, ip, s, env)
      case Next(ip', s') => Exec(code, ip', s', env)
      case DivisionByZero => Failed
      case Undefined => Stuck
  }

  /** No state of the run has more than bound entries. */
  ghost predicate AtMost(code: Code, ip: nat, s: Stack, env: Env, bound: nat)
    requires ValidEnv(env)
    decreases |code| - ip
  {
    && |s| <= bound
    && (ip < |code| && code[ip] != END && Step(code, ip, s, env).Next? ==>
          AtMost(code, Step(code, ip, s, env).ip, Step(code, ip, s, env).stack, env, bound))
  }

  /** Every count that ADD or MUL pops in the run is at least c. */
  ghost predicate CountsAtLeast(code: Code, ip: nat, s: Stack, env: Env, c: nat)
    requires ValidEnv(env)
    decreases |code| - ip
  {
    ip < |code| && code[ip] != END && Step(code, ip, s, env).Next? ==>
      && (PopsCount(code[ip]) ==> Top(s) >= c)
      && CountsAtLeast(code, Step(code, ip, s, env).ip, Step(code, ip, s, env).stack, env, c)
  }

  // ---- the static bound ----

  /** The next instruction and the depth after this one, with three entries taken by every ADD and MUL;
      nothing if the code is truncated or the depth would be negative. */
  function StaticStep(code: Code, ip: nat, depth: nat): (r: Option<(nat, nat)>)
    requires ip < |code|
    ensures r.Some? ==> ip < r.value.0 <= |code| && r.value.1 > 0
  {
    var i := code[ip];
    if i == ADD || i == MUL then
      if depth < 3 then None else Some((ip + 1, depth - 2))
    else if i == POW || i == NEGPOW then
      if depth < 2 then None else Some((ip + 1, depth - 1))
    else if i == NEG || i == VAR || i == BIGNUM || i == VARPOW then
      if depth < 1 then None else Some((ip + 1, depth))
    else if i == SMALLNUM then
      if ip + 2 > |code| then None else Some((ip + 2, depth + 1))
    else if i == MEDNUM then
      if ip + 2 > |code| || ip + 2 + code[ip + 1] > |code| then None else Some((ip + 2 + code[ip + 1], depth + 1))
    else None
  }

  /** The static scan reaches END. */
  predicate Scannable(code: Code, ip: nat, depth: nat)
    decreases |code| - ip
  {
    ip < |code| && (code[ip] == END ||
      var r := StaticStep(code, ip, depth);
      r.Some? && Scannable(code, r.value.0, r.value.1))
  }

  /** The largest depth after an instruction. */
  function StaticMax(code: Code, ip: nat, depth: nat): nat
    requires Scannable(code, ip, depth)
    decreases |code| - ip
  {
    if code[ip] == END then 0 else
      var r := StaticStep(code, ip, depth);
      var rest := StaticMax(code, r.value.0, r.value.1);
      if r.value.1 > rest then r.value.1 else rest
  }

  /** Statically an instruction ends at the same place; what it leaves differs by how far a popped count is from 2. */
  lemma StepDepth(code: Code, ip: nat, s: Stack, depth: nat, env: Env)
    requires ValidEnv(env) && ip < |code| && code[ip] != END && Step(code, ip, s, env).Next?
    ensures |s| <= depth && (PopsCount(code[ip]) ==> Top(s) >= 2) ==> StaticStep(code, ip, depth).Some?
    ensures StaticStep(code, ip, depth).Some? ==>
      var next, r := Step(code, ip, s, env), StaticStep(code, ip, depth).value;
      && next.ip == r.0
      && |next.stack| - r.1 == |s| - depth + (if PopsCount(code[ip]) then 2 - Top(s) else 0)
  {
  }

  /** A run that ends at END without underflow and whose counts are at least 2 never underflows statically. */
  lemma {:induction false} RunScannable(code: Code, ip: nat, s: Stack, depth: nat, env: Env)
    requires ValidEnv(env) && Exec(code, ip, s, env).Done? && CountsAtLeast(code, ip, s, env, 2) && |s| <= depth
    ensures Scannable(code, ip, depth)
    decreases |code| - ip
  {
    hide Step, StaticStep, ValidEnv;
    if code[ip] != END {
      StepDepth(code, ip, s, depth, env);
      var next, r := Step(code, ip, s, env), StaticStep(code, ip, depth).value;
      RunScannable(code, next.ip, next.stack, r.1, env);
    }
  }

  /** Whether the static depth, corrected by how far the popped counts are from 2, stays within the bound: surplus is
      the correction collected so far, by which counts of 1 outweigh those above 2. */
  ghost predicate CorrectedWithin(code: Code, ip: nat, s: Stack, depth: nat, surplus: int, env: Env, bound: nat)
    requires ValidEnv(env) && Scannable(code, ip, depth)
    decreases |code| - ip
  {
    && depth + surplus <= bound
    && (code[ip] != END && Step(code, ip, s, env).Next? ==>
          var next, r := Step(code, ip, s, env), StaticStep(code, ip, depth).value;
          CorrectedWithin(code, r.0, next.stack, r.1, surplus + (if PopsCount(code[ip]) then 2 - Top(s) else 0), env, bound))
  }

  /** Exactly when a bound holds for a run. */
  lemma {:induction false} BoundHoldsIff(code: Code, ip: nat, s: Stack, depth: nat, env: Env, bound: nat)
    requires ValidEnv(env) && Scannable(code, ip, depth)
    ensures AtMost(code, ip, s, env, bound) <==> CorrectedWithin(code, ip, s, depth, |s| - depth, env, bound)
    decreases |code| - ip
  {
    hide Step, StaticStep, ValidEnv;
    if code[ip] != END && Step(code, ip, s, env).Next? {
      StepDepth(code, ip, s, depth, env);
      var next, r := Step(code, ip, s, env), StaticStep(code, ip, depth).value;
      BoundHoldsIff(code, next.ip, next.stack, r.1, env, bound);
    }
  }

  /** The static bound is sound: if a run never underflows and its counts are at least 2, the scan reaches END and no
      state of the run has more entries than the scan counts. A run that ends in a division by zero does not see the
      rest of the code, which then has to be scannable. */
  lemma {:induction false} StackBound(code: Code, ip: nat, s: Stack, depth: nat, env: Env, bound: nat)
    requires ValidEnv(env) && CountsAtLeast(code, ip, s, env, 2)
    requires Exec(code, ip, s, env).Done? || Scannable(code, ip, depth)
    requires |s| <= depth && |s| <= bound
    ensures Scannable(code, ip, depth)
    ensures StaticMax(code, ip, depth) <= bound ==> AtMost(code, ip, s, env, bound)
    decreases |code| - ip
  {
    hide Step, StaticStep, ValidEnv;
    if Exec(code, ip, s, env).Done? {
      RunScannable(code, ip, s, depth, env);
    }
    if code[ip] != END && Step(code, ip, s, env).Next? && StaticMax(code, ip, depth) <= bound {
      StepDepth(code, ip, s, depth, env);
      var next, r := Step(code, ip, s, env), StaticStep(code, ip, depth).value;
      StackBound(code, next.ip, next.stack, r.1, env, bound);
    }
  }

  /** Two numbers, the sum of one of them, then two more numbers. */
  function LoneSum(): Code {
    [SMALLNUM, 0, SMALLNUM, 0, SMALLNUM, 1, ADD, SMALLNUM, 0, SMALLNUM, 0, END]
  }

  lemma LoneSumStatic()
    ensures Scannable(LoneSum(), 0, 0) && StaticMax(LoneSum(), 0, 0) == 3
  {
    var c := LoneSum();
    assert Scannable(c, 11, 3) && StaticMax(c, 11, 3) == 0;
    assert Scannable(c, 9, 2) && StaticMax(c, 9, 2) == 3;
    assert Scannable(c, 7, 1) && StaticMax(c, 7, 1) == 3;
    assert Scannable(c, 6, 3) && StaticMax(c, 6, 3) == 3;
    assert Scannable(c, 4, 2) && StaticMax(c, 4, 2) == 3;
    assert Scannable(c, 2, 1) && StaticMax(c, 2, 1) == 3;
  }

  lemma SmallNumberStep(code: Code, ip: nat, s: Stack, env: Env)
    requires ValidEnv(env) && ip + 2 <= |code| && code[ip] == SMALLNUM
    ensures Step(code, ip, s, env) == Next(ip + 2, s + [code[ip + 1]])
  {
  }

  lemma LoneAddStep(env: Env)
    requires ValidEnv(env)
    ensures Step(LoneSum(), 6, [0, 0, 1], env) == Next(7, [0, 0])
  {
    var s: Stack := [0, 0, 1];
    assert LoneSum()[6] == ADD && Operands(s, env.p) && Pop(Pop(s)) == [0] && Drop(s, 2) == [0];
  }

  lemma LoneSumSteps(env: Env)
    requires ValidEnv(env)
    ensures var c := LoneSum();
      && Step(c, 0, [], env) == Next(2, [0]) && Step(c, 2, [0], env) == Next(4, [0, 0])
      && Step(c, 4, [0, 0], env) == Next(6, [0, 0, 1]) && Step(c, 6, [0, 0, 1], env) == Next(7, [0, 0])
      && Step(c, 7, [0, 0], env) == Next(9, [0, 0, 0]) && Step(c, 9, [0, 0, 0], env) == Next(11, [0, 0, 0, 0])
  {
    hide Step, ValidEnv;
    var c := LoneSum();
    LoneAddStep(env);
    SmallNumberStep(c, 0, [], env);
    SmallNumberStep(c, 2, [0], env);
    SmallNumberStep(c, 4, [0, 0], env);
    SmallNumberStep(c, 7, [0, 0], env);
    SmallNumberStep(c, 9, [0, 0, 0], env);
  }

  /** A count of 1 breaks the bound: the run of LoneSum reaches four entries, the scan only three. */
  lemma CountOfOneExceedsBound(env: Env)
    requires ValidEnv(env)
    ensures Scannable(LoneSum(), 0, 0) && !AtMost(LoneSum(), 0, [], env, StaticMax(LoneSum(), 0, 0))
  {
    LoneSumStatic();
    LoneSumSteps(env);
    hide Step, ValidEnv;
    var c := LoneSum();
    assert !AtMost(c, 9, [0, 0, 0], env, 3);
    assert !AtMost(c, 7, [0, 0], env, 3);
    assert !AtMost(c, 6, [0, 0, 1], env, 3);
    assert !AtMost(c, 4, [0, 0], env, 3);
    assert !AtMost(c, 2, [0], env, 3);
  }

  lemma {:induction false} CountsAreOne(code: Code, ip: nat, s: Stack, env: Env, c: nat)
    requires ValidEnv(env) && c <= 1
    ensures CountsAtLeast(code, ip, s, env, c)
    decreases |code| - ip
  {
    hide ValidEnv;
    if ip < |code| && code[ip] != END && Step(code, ip, s, env).Next? {
      CountsAreOne(code, Step(code, ip, s, env).ip, Step(code, ip, s, env).stack, env, c);
    }
  }

  lemma LoneSumDone(env: Env)
    requires ValidEnv(env)
    ensures Exec(LoneSum(), 0, [], env) == Done([0, 0, 0, 0])
  {
    LoneSumSteps(env);
    hide Step, ValidEnv;
    var c := LoneSum();
    assert Exec(c, 9, [0, 0, 0], env) == Done([0, 0, 0, 0]);
    assert Exec(c, 7, [0, 0], env) == Done([0, 0, 0, 0]);
    assert Exec(c, 6, [0, 0, 1], env) == Done([0, 0, 0, 0]);
    assert Exec(c, 4, [0, 0], env) == Done([0, 0, 0, 0]);
    assert Exec(c, 2, [0], env) == Done([0, 0, 0, 0]);
  }

  /** The run of a code from the start ends at END and stays within the static bound. */
  ghost predicate BoundHolds(code: Code, env: Env)
    requires ValidEnv(env)
  {
    Scannable(code, 0, 0) && AtMost(code, 0, [], env, StaticMax(code, 0, 0))
  }

  ghost predicate RunsWithCounts(code: Code, env: Env, c: nat)
    requires ValidEnv(env)
  {
    Exec(code, 0, [], env).Done? && CountsAtLeast(code, 0, [], env, c)
  }

  /** The bound holds for every run whose counts are at least c if and only if c is at least 2. */
  lemma CountThreshold(env: Env, c: nat)
    requires ValidEnv(env)
    ensures (forall code :: RunsWithCounts(code, env, c) ==> BoundHolds(code, env)) <==> c >= 2
  {
    hide ValidEnv;
    if c >= 2 {
      forall code | RunsWithCounts(code, env, c)
        ensures BoundHolds(code, env)
      {
        CountsWeaken(code, 0, [], env, c);
        RunScannable(code, 0, [], 0, env);
        StackBound(code, 0, [], 0, env, StaticMax(code, 0, 0));
      }
    } else {
      CountsAreOne(LoneSum(), 0, [], env, c);
      LoneSumDone(env);
      CountOfOneExceedsBound(env);
      assert RunsWithCounts(LoneSum(), env, c) && !BoundHolds(LoneSum(), env);
    }
  }

  lemma {:induction false} CountsWeaken(code: Code, ip: nat, s: Stack, env: Env, c: nat)
    requires ValidEnv(env) && c >= 2 && CountsAtLeast(code, ip, s, env, c)
    ensures CountsAtLeast(code, ip, s, env, 2)
    decreases |code| - ip
  {
    hide ValidEnv, Step;
    if ip < |code| && code[ip] != END && Step(code, ip, s, env).Next? {
      CountsWeaken(code, Step(code, ip, s, env).ip, Step(code, ip, s, env).stack, env, c);
    }
  }
}

/** The bytecode interpreter on its stack array, and the correctness of compiled expressions
    (AnalyticExpression::evaluate and compute_max_stack_size_, src/alg_functions.cc:263-533; the code
    that RatExprParser emits, src/ratexpr_parser.cc:336-611). */
module AnalyticExpressions {
  import opened Common
  import opened ModArith
  import opened FFMod
  import opened IntegerMath
  import opened Bytecode

  // ---- the interpreter ----

  /** ADD: a count, then that many residues. */
  method Sum(stack: array<nat>, sp0: nat, p: Mod) returns (sp: nat)
    requires FFMod.Valid(p) && p.n > 0 && sp0 <= stack.Length && Operands(stack[..sp0], p.n)
    modifies stack
    ensures sp <= stack.Length
    ensures var s := old(stack[..sp0]); var n := Top(s);
      stack[..sp] == Drop(s, n + 1) + [SumTop(Pop(Pop(s)), n - 1, Top(Pop(s)), p.n)]
  {
    hide FFMod.Valid, SumTop, Operands;
    ghost var s := stack[..sp0];
    OperandsBelow(s, p.n);
    var len := stack[sp0 - 1];
    var tmp: nat := stack[sp0 - 2];
    sp := sp0 - 2;
    assert stack[..sp] == Pop(Pop(s));
    for j := 0 to len - 1
      invariant sp == sp0 - 2 - j && stack[..] == old(stack[..]) && tmp < p.n
      invariant SumTop(stack[..sp], len - 1 - j, tmp, p.n) == SumTop(Pop(Pop(s)), len - 1, Top(Pop(s)), p.n)
    {
      assert Pop(stack[..sp]) == stack[..sp - 1] && Top(stack[..sp]) == stack[sp - 1] == s[sp - 1];
      SumTopStep(stack[..sp], len - 1 - j, tmp, p.n);
      tmp := AddMod(tmp, stack[sp - 1], p);
      sp := sp - 1;
    }
    SumTopEnd(stack[..sp], tmp, p.n);
    assert stack[..sp] == Drop(s, len + 1);
    stack[sp] := tmp;
    sp := sp + 1;
  }

  /** MUL. */
  method Product(stack: array<nat>, sp0: nat, p: Mod) returns (sp: nat)
    requires FFMod.Valid(p) && p.n > 0 && sp0 <= stack.Length && Operands(stack[..sp0], p.n)
    modifies stack
    ensures sp <= stack.Length
    ensures var s := old(stack[..sp0]); var n := Top(s);
      stack[..sp] == Drop(s, n + 1) + [ProductTop(Pop(Pop(s)), n - 1, Top(Pop(s)), p.n)]
  {
    hide FFMod.Valid, ProductTop, Operands;
    ghost var s := stack[..sp0];
    OperandsBelow(s, p.n);
    var len := stack[sp0 - 1];
    var tmp: nat := stack[sp0 - 2];
    sp := sp0 - 2;
    assert stack[..sp] == Pop(Pop(s));
    for j := 0 to len - 1
      invariant sp == sp0 - 2 - j && stack[..] == old(stack[..]) && tmp < p.n
      invariant ProductTop(stack[..sp], len - 1 - j, tmp, p.n) == ProductTop(Pop(Pop(s)), len - 1, Top(Pop(s)), p.n)
    {
      assert Pop(stack[..sp]) == stack[..sp - 1] && Top(stack[..sp]) == stack[sp - 1] == s[sp - 1];
      ProductTopStep(stack[..sp], len - 1 - j, tmp, p.n);
      tmp := MulMod(tmp, stack[sp - 1], p);
      sp := sp - 1;
    }
    ProductTopEnd(stack[..sp], tmp, p.n);
    assert stack[..sp] == Drop(s, len + 1);
    stack[sp] := tmp;
    sp := sp + 1;
  }

  lemma SumTopStep(s: Stack, n: nat, acc: nat, p: nat)
    requires 0 < n <= |s| && p > 0
    ensures SumTop(s, n, acc, p) == SumTop(Pop(s), n - 1, (acc + Top(s)) % p, p)
  {
  }

  lemma SumTopEnd(s: Stack, acc: nat, p: nat)
    requires p > 0
    ensures SumTop(s, 0, acc, p) == acc
  {
  }

  lemma ProductTopStep(s: Stack, n: nat, acc: nat, p: nat)
    requires 0 < n <= |s| && p > 0
    ensures ProductTop(s, n, acc, p) == ProductTop(Pop(s), n - 1, acc * Top(s) % p, p)
  {
  }

  lemma ProductTopEnd(s: Stack, acc: nat, p: nat)
    requires p > 0
    ensures ProductTop(s, 0, acc, p) == acc
  {
  }

  lemma OperandsBelow(s: Stack, p: nat)
    requires Operands(s, p)
    ensures s != [] && 1 <= Top(s) < |s|
    ensures forall i :: |s| - 1 - Top(s) <= i < |s| - 1 ==> s[i] < p
  {
    var a := |s| - 1 - Top(s);
    forall i | a <= i < |s| - 1
      ensures s[i] < p
    {
      assert s[a..|s| - 1][i - a] == s[i];
    }
  }

  /** The top entry becomes its negative. */
  method Negate(stack: array<nat>, sp: nat, p: Mod)
    requires FFMod.Valid(p) && 0 < sp <= stack.Length && stack[sp - 1] < p.n
    modifies stack
    ensures stack[..sp] == Pop(old(stack[..sp])) + [(0 - Top(old(stack[..sp]))) % p.n]
  {
    var res := SubMod(0, stack[sp - 1], p);
    stack[sp - 1] := res;
  }

  /** POW and NEGPOW, the latter with a non-zero base. */
  method RaisePower(stack: array<nat>, sp: nat, negative: bool, p: Mod)
    requires FFMod.Valid(p) && IsPrime(p.n) && 2 <= sp <= stack.Length && stack[sp - 2] < p.n
    requires negative ==> stack[sp - 2] != 0
    modifies stack
    ensures var s := old(stack[..sp]); var z := Pow(Top(Pop(s)), Exponent(Top(s))) % p.n;
      && (negative ==> 0 < z < p.n) && 0 <= z
      && stack[..sp - 1] == Drop(s, 2) + [if negative then Inverse(z, p.n) else z]
  {
    hide FFMod.Valid, Pow, IsPrime;
    PrimeAboveOne(p.n);
    var b := stack[sp - 1];
    var a := stack[sp - 2];
    var res := PowerMod(a, Exponent(b), p);
    if negative {
      PowerNotZero(a, Exponent(b), p.n);
      var inv := MulInverse(res, p);
      InverseIs(res, inv, p.n);
      res := inv;
    }
    stack[sp - 2] := res;
  }

  lemma PrimeAboveOne(p: int)
    requires IsPrime(p)
    ensures p > 1
  {
  }

  /** An index is replaced by the entry of a table. */
  method Load(stack: array<nat>, sp: nat, table: seq<nat>)
    requires 0 < sp <= stack.Length && stack[sp - 1] < |table|
    modifies stack
    ensures stack[..sp] == Pop(old(stack[..sp])) + [table[Top(old(stack[..sp]))]]
  {
    stack[sp - 1] := table[stack[sp - 1]];
  }

  method ReadMedium(code: Code, ip: nat, len: nat) returns (tmp: nat)
    requires ip + len <= |code|
    ensures tmp == ReadNumber(code, ip, len, 0)
  {
    tmp := 0;
    for j := 0 to len
      invariant ReadNumber(code, ip + j, len - j, tmp) == ReadNumber(code, ip, len, 0)
    {
      tmp := tmp * 256 % B + code[ip + j];
    }
  }

  method Push(stack: array<nat>, sp: nat, v: nat)
    requires sp < stack.Length
    modifies stack
    ensures stack[..sp + 1] == old(stack[..sp]) + [v]
  {
    stack[sp] := v;
  }

  predicate IsArithmetic(i: nat) {
    i == ADD || i == MUL || i == NEG || i == POW || i == NEGPOW
  }

  /** One pass through the switch. */
  method Execute(code: Code, ip0: nat, stack: array<nat>, sp0: nat, env: Env, p: Mod) returns (ok: bool, ip: nat, sp: nat)
    requires ValidEnv(env) && FFMod.Valid(p) && p.n == env.p && ip0 < |code| && code[ip0] != END && sp0 <= stack.Length
    requires Step(code, ip0, stack[..sp0], env) != Undefined
    requires Step(code, ip0, stack[..sp0], env).Next? ==> |Step(code, ip0, stack[..sp0], env).stack| <= stack.Length
    modifies stack
    ensures sp <= stack.Length
    ensures ok <==> old(Step(code, ip0, stack[..sp0], env)).Next?
    ensures ok ==> old(Step(code, ip0, stack[..sp0], env)) == Next(ip, stack[..sp])
  {
    hide FFMod.Valid, Step, IsPrime;
    if IsArithmetic(code[ip0]) {
      ok, ip, sp := ExecuteArithmetic(code, ip0, stack, sp0, env, p);
    } else {
      ok, ip, sp := ExecuteLoad(code, ip0, stack, sp0, env, p);
    }
  }

  /** The cases that combine entries of the stack. */
  method ExecuteArithmetic(code: Code, ip0: nat, stack: array<nat>, sp0: nat, env: Env, p: Mod)
    returns (ok: bool, ip: nat, sp: nat)
    requires ValidEnv(env) && FFMod.Valid(p) && p.n == env.p && ip0 < |code| && code[ip0] != END && sp0 <= stack.Length
    requires Step(code, ip0, stack[..sp0], env) != Undefined
    requires Step(code, ip0, stack[..sp0], env).Next? ==> |Step(code, ip0, stack[..sp0], env).stack| <= stack.Length
    requires IsArithmetic(code[ip0])
    modifies stack
    ensures sp <= stack.Length
    ensures ok <==> old(Step(code, ip0, stack[..sp0], env)).Next?
    ensures ok ==> old(Step(code, ip0, stack[..sp0], env)) == Next(ip, stack[..sp])
  {
    hide FFMod.Valid, SumTop, ProductTop, Pow, IsPrime, Inverse, ReadNumber, AllBelow;
    ok, ip, sp := true, ip0 + 1, sp0;
    EnvPrime(env);
    assert sp0 >= 2 ==> var s := stack[..sp0]; Top(s) == stack[sp0 - 1] && Top(Pop(s)) == stack[sp0 - 2];
    var i := code[ip0];
    if i == ADD {
      sp := Sum(stack, sp0, p);
    } else if i == MUL {
      sp := Product(stack, sp0, p);
    } else if i == NEG {
      Negate(stack, sp0, p);
    } else if i == POW {
      RaisePower(stack, sp0, false, p);
      sp := sp0 - 1;
    } else {
      if stack[sp0 - 2] == 0 {
        return false, ip, sp;
      }
      RaisePower(stack, sp0, true, p);
      sp := sp0 - 1;
    }
  }

  /** The cases that read a table or the code. */
  method ExecuteLoad(code: Code, ip0: nat, stack: array<nat>, sp0: nat, env: Env, p: Mod)
    returns (ok: bool, ip: nat, sp: nat)
    requires ValidEnv(env) && FFMod.Valid(p) && p.n == env.p && ip0 < |code| && code[ip0] != END && sp0 <= stack.Length
    requires Step(code, ip0, stack[..sp0], env) != Undefined
    requires Step(code, ip0, stack[..sp0], env).Next? ==> |Step(code, ip0, stack[..sp0], env).stack| <= stack.Length
    requires !IsArithmetic(code[ip0])
    modifies stack
    ensures sp <= stack.Length
    ensures ok <==> old(Step(code, ip0, stack[..sp0], env)).Next?
    ensures ok ==> old(Step(code, ip0, stack[..sp0], env)) == Next(ip, stack[..sp])
  {
    hide FFMod.Valid, SumTop, ProductTop, Pow, IsPrime, Inverse, ReadNumber, AllBelow;
    ok, ip, sp := true, ip0 + 1, sp0;
    var i := code[ip0];
    if i == VAR {
      Load(stack, sp0, env.input);
    } else if i == BIGNUM {
      Load(stack, sp0, env.bignums);
    } else if i == VARPOW {
      Load(stack, sp0, env.varpows);
    } else if i == SMALLNUM {
      Push(stack, sp0, code[ip0 + 1]);
      ip, sp := ip0 + 2, sp0 + 1;
    } else {
      var len := code[ip0 + 1];
      var tmp := ReadMedium(code, ip0 + 2, len);
      Push(stack, sp0, tmp);
      ip, sp := ip0 + 2 + len, sp0 + 1;
    }
  }

  lemma EnvPrime(env: Env)
    requires ValidEnv(env)
    ensures IsPrime(env.p) && env.p > 1
  {
  }

  /** Runs one bytecode on a stack that is large enough: its last entry, or FAILED. */
  method Run(code: Code, stack: array<nat>, env: Env, p: Mod) returns (res: Option<nat>)
    requires ValidEnv(env) && FFMod.Valid(p) && p.n == env.p
    requires Exec(code, 0, [], env) != Stuck && AtMost(code, 0, [], env, stack.Length)
    requires Exec(code, 0, [], env).Done? ==> Exec(code, 0, [], env).stack != []
    modifies stack
    ensures res == match Exec(code, 0, [], env) case Done(s) => Some(Top(s)) case _ => None
  {
    hide ValidEnv, FFMod.Valid, Step;
    ghost var goal := Exec(code, 0, [], env);
    var ip: nat, sp: nat := 0, 0;
    assert stack[..sp] == [];
    while code[ip] != END
      invariant sp <= stack.Length && ip < |code|
      invariant Exec(code, ip, stack[..sp], env) == goal && AtMost(code, ip, stack[..sp], env, stack.Length)
      decreases |code| - ip
    {
      StepBound(code, ip, stack[..sp], env, stack.Length);
      var ok, ip', sp' := Execute(code, ip, stack, sp, env, p);
      if !ok {
        return None;
      }
      ip, sp := ip', sp';
    }
    return Some(stack[sp - 1]);
  }

  // ---- a whole evaluation ----

  /** An input variable and a signed 32-bit exponent. */
  datatype VarPow = VarPow(index: nat, exponent: int)

  /** A power of an input; none if a negative one of 0 is asked for. */
  ghost function PowerOf(v: VarPow, input: seq<nat>, p: nat): (r: Option<nat>)
    requires IsPrime(p) && v.index < |input| && AllBelow(input, p)
    ensures r.Some? ==> r.value < p
  {
    var x := input[v.index];
    if v.exponent >= 0 then Some(Pow(x, v.exponent) % p)
    else if x == 0 then None
    else
      PowerNotZero(x, -v.exponent, p);
      Some(Inverse(Pow(x, -v.exponent) % p, p))
  }

  ghost predicate PowersOf(table: seq<nat>, varpows: seq<VarPow>, input: seq<nat>, p: nat)
    requires IsPrime(p) && AllBelow(input, p) && forall j :: 0 <= j < |varpows| ==> varpows[j].index < |input|
  {
    |table| <= |varpows| && forall j :: 0 <= j < |table| ==> PowerOf(varpows[j], input, p) == Some(table[j])
  }

  /** Each entry is the power of its input, modulo p: for a negative exponent the number whose product with the positive
      power is 1. */
  ghost predicate ArePowers(table: seq<nat>, varpows: seq<VarPow>, input: seq<nat>, p: nat)
    requires p > 0 && forall j :: 0 <= j < |varpows| ==> varpows[j].index < |input|
  {
    |table| <= |varpows| && forall j :: 0 <= j < |table| ==>
      var x, e := input[varpows[j].index], varpows[j].exponent;
      table[j] < p && if e >= 0 then Cong(table[j], Pow(x, e), p) else Cong(table[j] * Pow(x, -e), 1, p)
  }

  lemma PowersAre(table: seq<nat>, varpows: seq<VarPow>, input: seq<nat>, p: nat)
    requires IsPrime(p) && AllBelow(input, p) && (forall j :: 0 <= j < |varpows| ==> varpows[j].index < |input|)
    requires PowersOf(table, varpows, input, p)
    ensures ArePowers(table, varpows, input, p)
  {
    hide Cong, IsPrime, Pow;
    PrimeAboveOne(p);
    forall j | 0 <= j < |table|
      ensures var x, e := input[varpows[j].index], varpows[j].exponent;
        table[j] < p && if e >= 0 then Cong(table[j], Pow(x, e), p) else Cong(table[j] * Pow(x, -e), 1, p)
    {
      PowerIs(varpows[j], input, p, table[j]);
    }
  }

  lemma PowerIs(v: VarPow, input: seq<nat>, p: nat, t: nat)
    requires IsPrime(p) && v.index < |input| && AllBelow(input, p) && PowerOf(v, input, p) == Some(t)
    ensures t < p && if v.exponent >= 0 then Cong(t, Pow(input[v.index], v.exponent), p)
                     else Cong(t * Pow(input[v.index], -v.exponent), 1, p)
  {
    hide Pow, IsPrime;
    PrimeAboveOne(p);
    var x := input[v.index];
    if v.exponent >= 0 {
      CongMod(Pow(x, v.exponent), p);
    } else {
      PowerNotZero(x, -v.exponent, p);
      var z := Pow(x, -v.exponent);
      CongMod(z, p);
      CongSym(z % p, z, p);
      CongRefl(t, p);
      CongMul(t, t, z, z % p, p);
      assert t * (z % p) == (z % p) * t;
      CongTrans(t * z, t * (z % p), 1, p);
    }
  }

  /** VARPOW replaces an index by the power of the input. */
  lemma VarPowStep(code: Code, ip: nat, s: Stack, varpows: seq<VarPow>, env: Env)
    requires ValidEnv(env) && ip < |code| && code[ip] == VARPOW && s != [] && Top(s) < |env.varpows|
    requires (forall j :: 0 <= j < |varpows| ==> varpows[j].index < |env.input|) && env.p > 0
    requires ArePowers(env.varpows, varpows, env.input, env.p)
    ensures |env.varpows| <= |varpows|
    ensures var r := Step(code, ip, s, env); var v := varpows[Top(s)];
      && r.Next? && r.ip == ip + 1 && r.stack != [] && Pop(r.stack) == Pop(s) && Top(r.stack) < env.p
      && if v.exponent >= 0 then Cong(Top(r.stack), Pow(env.input[v.index], v.exponent), env.p)
         else Cong(Top(r.stack) * Pow(env.input[v.index], -v.exponent), 1, env.p)
  {
    hide Cong, Pow, IsPrime;
    assert env.varpows[Top(s)] == env.varpows[Top(s)];
  }

  method OnePower(v: VarPow, input: seq<nat>, p: Mod) returns (res: Option<nat>)
    requires FFMod.Valid(p) && IsPrime(p.n) && v.index < |input| && AllBelow(input, p.n)
    requires -0x8000_0000 <= v.exponent < 0x8000_0000
    ensures res == PowerOf(v, input, p.n)
  {
    hide FFMod.Valid, Pow, IsPrime;
    PrimeAboveOne(p.n);
    var z := input[v.index];
    if v.exponent >= 0 {
      var r := PowerMod(z, v.exponent, p);
      return Some(r);
    }
    if z == 0 {
      return None;
    }
    PowerNotZero(z, -v.exponent, p.n);
    var r := PowerMod(z, -v.exponent, p);
    var inv := MulInverse(r, p);
    InverseIs(r, inv, p.n);
    return Some(inv);
  }

  /** The table of powers, or FAILED if some input that a negative power needs is 0. */
  method FillPowers(varpows: seq<VarPow>, input: seq<nat>, p: Mod) returns (res: Option<seq<nat>>)
    requires FFMod.Valid(p) && IsPrime(p.n) && AllBelow(input, p.n)
    requires forall j :: 0 <= j < |varpows| ==> varpows[j].index < |input| && -0x8000_0000 <= varpows[j].exponent < 0x8000_0000
    ensures res.Some? ==> |res.value| == |varpows| && PowersOf(res.value, varpows, input, p.n) && AllBelow(res.value, p.n)
    ensures res.Some? ==> ArePowers(res.value, varpows, input, p.n)
    ensures res.None? <==> exists j :: 0 <= j < |varpows| && varpows[j].exponent < 0 && input[varpows[j].index] == 0
  {
    hide FFMod.Valid, Pow, IsPrime;
    PrimeAboveOne(p.n);
    var table: seq<nat> := [];
    for j := 0 to |varpows|
      invariant |table| == j && PowersOf(table, varpows, input, p.n) && AllBelow(table, p.n)
    {
      var r := OnePower(varpows[j], input, p);
      if r.None? {
        return None;
      }
      table := table + [r.value];
    }
    forall j | 0 <= j < |varpows|
      ensures varpows[j].exponent >= 0 || input[varpows[j].index] != 0
    {
      assert PowerOf(varpows[j], input, p.n) == Some(table[j]);
    }
    PowersAre(table, varpows, input, p.n);
    return Some(table);
  }

  /** The outputs of the first k bytecodes; none as soon as one fails. */
  ghost function OutputsOf(codes: seq<Code>, k: nat, env: Env): Option<seq<nat>>
    requires ValidEnv(env) && k <= |codes|
  {
    if k == 0 then Some([]) else
      match OutputsOf(codes, k - 1, env)
      case None => None
      case Some(out) =>
        match Exec(codes[k - 1], 0, [], env)
        case Done(s) => if s == [] then None else Some(out + [Top(s)])
        case _ => None
  }

  /** The k outputs are the last entries that the first k bytecodes leave, each run on its own; there are none
      exactly when one of these runs fails or leaves nothing. */
  lemma {:induction false} OutputsAre(codes: seq<Code>, k: nat, env: Env)
    requires ValidEnv(env) && k <= |codes|
    ensures var outs := OutputsOf(codes, k, env);
      && (outs.None? <==> exists j :: 0 <= j < k && !LeavesEntry(codes[j], env))
      && (outs.Some? ==> |outs.value| == k && forall j :: 0 <= j < k ==> outs.value[j] == Top(Exec(codes[j], 0, [], env).stack))
    decreases k
  {
    hide Exec, ValidEnv;
    if k > 0 {
      OutputsAre(codes, k - 1, env);
    }
  }

  ghost predicate LeavesEntry(code: Code, env: Env)
    requires ValidEnv(env)
  {
    Exec(code, 0, [], env).Done? && Exec(code, 0, [], env).stack != []
  }

  /** Bytecodes that run on a stack of the given size and leave an entry when they end. */
  ghost predicate RunsWithin(codes: seq<Code>, env: Env, size: nat)
    requires ValidEnv(env)
  {
    forall k :: 0 <= k < |codes| ==>
      && Exec(codes[k], 0, [], env) != Stuck && AtMost(codes[k], 0, [], env, size)
      && (Exec(codes[k], 0, [], env).Done? ==> Exec(codes[k], 0, [], env).stack != [])
  }

  /** All bytecodes on one stack, after the table of powers. */
  method Evaluate(codes: seq<Code>, varpows: seq<VarPow>, input: seq<nat>, bignums: seq<nat>, stack: array<nat>, p: Mod)
    returns (res: Option<seq<nat>>, ghost table: seq<nat>)
    requires FFMod.Valid(p) && IsPrime(p.n) && AllBelow(input, p.n) && AllBelow(bignums, p.n)
    requires forall j :: 0 <= j < |varpows| ==> varpows[j].index < |input| && -0x8000_0000 <= varpows[j].exponent < 0x8000_0000
    requires forall t: seq<nat> :: AllBelow(t, p.n) && |t| == |varpows| && PowersOf(t, varpows, input, p.n) ==>
      RunsWithin(codes, Env(p.n, input, bignums, t), stack.Length)
    modifies stack
    ensures AllBelow(table, p.n) && ArePowers(table, varpows, input, p.n)
    ensures (exists j :: 0 <= j < |varpows| && varpows[j].exponent < 0 && input[varpows[j].index] == 0) ==> res.None?
    ensures (forall j :: 0 <= j < |varpows| && varpows[j].exponent < 0 ==> input[varpows[j].index] != 0) ==>
      |table| == |varpows| && res == OutputsOf(codes, |codes|, Env(p.n, input, bignums, table))
  {
    hide FFMod.Valid, IsPrime, Exec, AtMost, PowerOf, Pow;
    PrimeAboveOne(p.n);
    table := [];
    var powers := FillPowers(varpows, input, p);
    if powers.None? {
      return None, [];
    }
    table := powers.value;
    var env := Env(p.n, input, bignums, powers.value);
    var out: seq<nat> := [];
    for k := 0 to |codes|
      invariant OutputsOf(codes, k, env) == Some(out)
    {
      var r := Run(codes[k], stack, env, p);
      if r.None? {
        FailureStays(codes, k + 1, |codes|, env);
        return None, table;
      }
      out := out + [r.value];
    }
    return Some(out), table;
  }

  lemma {:induction false} FailureStays(codes: seq<Code>, k: nat, n: nat, env: Env)
    requires ValidEnv(env) && k <= n <= |codes| && OutputsOf(codes, k, env).None?
    ensures OutputsOf(codes, n, env).None?
    decreases n
  {
    if k < n {
      FailureStays(codes, k, n - 1, env);
    }
  }

  lemma StepBound(code: Code, ip: nat, s: Stack, env: Env, bound: nat)
    requires ValidEnv(env) && ip < |code| && code[ip] != END && Exec(code, ip, s, env) != Stuck && AtMost(code, ip, s, env, bound)
    ensures Step(code, ip, s, env) != Undefined
    ensures Step(code, ip, s, env).Next? ==> |Step(code, ip, s, env).stack| <= bound && Step(code, ip, s, env).ip > ip
    ensures Step(code, ip, s, env).Next? ==> Step(code, ip, s, env).ip < |code|
  {
    hide Step;
  }

  // ---- the static bound ----

  /** The largest depth that the scan of any of the bytecodes reaches. */
  method ComputeMaxStackSize(codes: seq<Code>) returns (maxStack: nat)
    requires forall k :: 0 <= k < |codes| ==> Scannable(codes[k], 0, 0)
    ensures forall k :: 0 <= k < |codes| ==> StaticMax(codes[k], 0, 0) <= maxStack
    ensures maxStack == 0 || exists k :: 0 <= k < |codes| && StaticMax(codes[k], 0, 0) == maxStack
  {
    maxStack := 0;
    for k := 0 to |codes|
      invariant forall l :: 0 <= l < k ==> StaticMax(codes[l], 0, 0) <= maxStack
      invariant maxStack == 0 || exists l :: 0 <= l < k && StaticMax(codes[l], 0, 0) == maxStack
    {
      maxStack := ScanOne(codes[k], maxStack);
    }
  }

  method ScanOne(code: Code, max0: nat) returns (maxStack: nat)
    requires Scannable(code, 0, 0)
    ensures maxStack == if StaticMax(code, 0, 0) > max0 then StaticMax(code, 0, 0) else max0
  {
    hide StaticStep;
    maxStack := max0;
    var ip: nat, stack: nat := 0, 0;
    while code[ip] != END
      invariant Scannable(code, ip, stack) && max0 <= maxStack
      invariant (if StaticMax(code, ip, stack) > maxStack then StaticMax(code, ip, stack) else maxStack)
        == (if StaticMax(code, 0, 0) > max0 then StaticMax(code, 0, 0) else max0)
      decreases |code| - ip
    {
      var r := StaticStep(code, ip, stack).value;
      ip, stack := r.0, r.1;
      maxStack := if stack > maxStack then stack else maxStack;
    }
  }
}

/** The bytecode that the expression parser emits (src/ratexpr_parser.cc:336-611) computes the value of
    the expression modulo p. Parsing itself is not modelled: expressions are trees. */
module CompiledExpression {
  import opened Common
  import opened ModArith
  import opened FFMod
  import opened IntegerMath
  import opened Bytecode
  import opened AnalyticExpressions

  /** What the parser emits code for: numbers, entries of the input and of the two tables, sums and
      products of several terms, negation, and powers. */
  datatype Expr =
    | Number(n: int)
    | Input(i: nat)
    | BigNumber(i: nat)
    | InputPower(i: nat)
    | SumOf(args: Exprs)
    | ProductOf(args: Exprs)
    | Negated(e: Expr)
    | Power(e: Expr, k: nat)
    | InversePower(e: Expr, k: nat)

  datatype Exprs = Nil | Cons(head: Expr, tail: Exprs)

  function Len(es: Exprs): nat {
    match es case Nil => 0 case Cons(_, t) => 1 + Len(t)
  }

  // ---- numbers ----

  /** The bytes of a number, most significant first, without leading zeros. */
  function Bytes(n: nat): (b: seq<nat>)
    ensures forall i :: 0 <= i < |b| ==> b[i] < 256
  {
    if n == 0 then [] else Bytes(n / 256) + [n % 256]
  }

  function MachineNumber(n: nat): Code {
    if n < 256 then [SMALLNUM, n] else [MEDNUM, |Bytes(n)|] + Bytes(n)
  }

  /** push_machinenum: a small number in one byte, others with their bytes, the sign as NEG. */
  function NumberCode(n: int): Code {
    if n < 0 then MachineNumber(-n) + [NEG] else MachineNumber(n)
  }

  lemma {:induction false} BytesLength(n: nat, k: nat)
    requires n < Pow256(k)
    ensures |Bytes(n)| <= k && (k > 0 && n >= Pow256(k - 1) ==> |Bytes(n)| == k)
    decreases k
  {
    if n > 0 {
      assert n / 256 < Pow256(k - 1);
      BytesLength(n / 256, k - 1);
      if k > 1 && n >= Pow256(k - 1) {
        assert n / 256 >= Pow256(k - 2);
      }
    }
  }

  /** Reading the bytes gives back the number if it fits in 64 bits. */
  lemma {:induction false} ReadBytes(code: Code, ip: nat, n: nat, rest: nat)
    requires n < B && ip + |Bytes(n)| + rest <= |code| && code[ip..ip + |Bytes(n)|] == Bytes(n)
    ensures ReadNumber(code, ip, |Bytes(n)| + rest, 0) == ReadNumber(code, ip + |Bytes(n)|, rest, n)
    decreases n
  {
    if n > 0 {
      var b := Bytes(n / 256);
      assert Bytes(n) == b + [n % 256];
      assert code[ip..ip + |b|] == Bytes(n)[..|b|] == b;
      assert code[ip + |b|] == Bytes(n)[|b|] == n % 256;
      ReadBytes(code, ip, n / 256, rest + 1);
      assert n / 256 * 256 < B;
      QuotientUnique(n / 256 * 256, B, 0, n / 256 * 256);
    }
  }

  /** The loop of push_machinenum over the eight bytes, which skips leading zeros. */
  method PushMachineNumber(bytecode: Code, num: int) returns (r: Code)
    requires -B / 2 <= num < B / 2
    ensures r == bytecode + NumberCode(num)
  {
    var absnum: nat := if num >= 0 then num else -num;
    r := bytecode;
    if absnum < 256 {
      r := r + [SMALLNUM, absnum];
    } else {
      r := PushMedium(r, absnum);
    }
    if num < 0 {
      r := r + [NEG];
    }
  }

  method PushMedium(bytecode: Code, absnum: nat) returns (r: Code)
    requires 256 <= absnum < B
    ensures r == bytecode + [MEDNUM, |Bytes(absnum)|] + Bytes(absnum)
  {
    hide Bytes, Pow256;
    r := bytecode + [MEDNUM];
    var initNum := false;
    Pow256Eight();
    var j := 8;
    while j > 0
      invariant 0 <= j <= 8
      invariant initNum <==> absnum / Pow256(j) != 0
      invariant r == bytecode + [MEDNUM] + if initNum then [|Bytes(absnum)|] + Bytes(absnum / Pow256(j)) else []
    {
      j := j - 1;
      var instr := absnum / Pow256(j) % 256;
      NextByte(absnum, j);
      if !initNum && instr != 0 {
        r := r + [j + 1];
        initNum := true;
      }
      if initNum {
        r := r + [instr];
      }
    }
    Pow256Zero(absnum);
  }

  lemma Pow256Eight()
    ensures Pow256(8) == B
    ensures forall n: nat :: n < B ==> n / Pow256(8) == 0
  {
  }

  lemma Pow256Zero(n: nat)
    requires n >= 256
    ensures n / Pow256(0) == n && n != 0
  {
  }

  /** Going one byte down: the higher bytes, then the next one; the first non-zero byte fixes the length. */
  lemma NextByte(n: nat, j: nat)
    requires n >= 256
    ensures n / Pow256(j) / 256 == n / Pow256(j + 1)
    ensures n / Pow256(j) != 0 ==> Bytes(n / Pow256(j)) == Bytes(n / Pow256(j + 1)) + [n / Pow256(j) % 256]
    ensures n / Pow256(j + 1) == 0 ==> n / Pow256(j) == n / Pow256(j) % 256
    ensures n / Pow256(j + 1) == 0 && n / Pow256(j) != 0 ==> |Bytes(n)| == j + 1 && Bytes(n / Pow256(j + 1)) == []
  {
    var d, e := Pow256(j), Pow256(j + 1);
    assert e == 256 * d;
    hide Pow256;
    DivTwice(n, d);
    QuotientZero(n, e);
    QuotientZero(n, d);
    if n / e == 0 && n / d != 0 {
      BytesLength(n, j + 1);
    }
  }

  lemma QuotientZero(n: nat, d: nat)
    requires d > 0
    ensures n / d == 0 <==> n < d
  {
  }

  lemma DivTwice(n: nat, d: nat)
    requires d > 0
    ensures n / d / 256 == n / (256 * d)
  {
    var q := n / d;
    var a, b := q / 256, q % 256;
    assert n == q * d + n % d && q == a * 256 + b;
    var rest := b * d + n % d;
    assert (a * 256) * d == a * (256 * d);
    assert n == a * (256 * d) + rest;
    MulMono(b + 1, 256, d);
    QuotientUnique(n, 256 * d, a, rest);
  }

  // ---- compilation and meaning ----

  function Compile(e: Expr): Code {
    match e
    case Number(n) => NumberCode(n)
    case Input(i) => NumberCode(i) + [VAR]
    case BigNumber(i) => NumberCode(i) + [BIGNUM]
    case InputPower(i) => NumberCode(i) + [VARPOW]
    case SumOf(args) => CompileAll(args) + NumberCode(Len(args)) + [ADD]
    case ProductOf(args) => CompileAll(args) + NumberCode(Len(args)) + [MUL]
    case Negated(x) => Compile(x) + [NEG]
    case Power(x, k) => Compile(x) + NumberCode(k) + [POW]
    case InversePower(x, k) => Compile(x) + NumberCode(k) + [NEGPOW]
  }

  function CompileAll(es: Exprs): Code {
    match es case Nil => [] case Cons(h, t) => Compile(h) + CompileAll(t)
  }

  const HALF: int := 0x8000_0000_0000_0000

  /** Numbers are residues in absolute value, indices lie in their tables, sums and products have
      several terms, and exponents fit in 32 bits. */
  predicate ValidExpr(e: Expr, env: Env) {
    match e
    case Number(n) => -HALF < n < HALF && -(env.p as int) < n < env.p
    case Input(i) => i < |env.input| && i < HALF
    case BigNumber(i) => i < |env.bignums| && i < HALF
    case InputPower(i) => i < |env.varpows| && i < HALF
    case SumOf(args) => 2 <= Len(args) < HALF && ValidExprs(args, env)
    case ProductOf(args) => 2 <= Len(args) < HALF && ValidExprs(args, env)
    case Negated(x) => ValidExpr(x, env)
    case Power(x, k) => ValidExpr(x, env) && k < 0x1_0000_0000
    case InversePower(x, k) => ValidExpr(x, env) && k < 0x1_0000_0000
  }

  predicate ValidExprs(es: Exprs, env: Env) {
    match es case Nil => true case Cons(h, t) => ValidExpr(h, env) && ValidExprs(t, env)
  }

  function Total(vs: seq<nat>): nat {
    if vs == [] then 0 else Total(vs[..|vs| - 1]) + vs[|vs| - 1]
  }

  function TotalProduct(vs: seq<nat>): nat {
    if vs == [] then 1 else TotalProduct(vs[..|vs| - 1]) * vs[|vs| - 1]
  }

  /** The value modulo p; none if a denominator vanishes. */
  ghost function Value(e: Expr, env: Env): (v: Option<nat>)
    requires ValidEnv(env) && ValidExpr(e, env)
    ensures v.Some? ==> v.value < env.p
  {
    match e
    case Number(n) => Some(n % env.p)
    case Input(i) => Some(env.input[i])
    case BigNumber(i) => Some(env.bignums[i])
    case InputPower(i) => Some(env.varpows[i])
    case SumOf(args) =>
      var vs := Values(args, env);
      if vs.None? then None else Some(Total(vs.value) % env.p)
    case ProductOf(args) =>
      var vs := Values(args, env);
      if vs.None? then None else Some(TotalProduct(vs.value) % env.p)
    case Negated(x) =>
      var v := Value(x, env);
      if v.None? then None else Some((0 - v.value) % env.p)
    case Power(x, k) =>
      var v := Value(x, env);
      if v.None? then None else Some(Pow(v.value, k) % env.p)
    case InversePower(x, k) =>
      var v := Value(x, env);
      if v.None? || v.value == 0 then None else
        PowerNotZero(v.value, k, env.p);
        Some(Inverse(Pow(v.value, k) % env.p, env.p))
  }

  ghost function Values(es: Exprs, env: Env): (vs: Option<seq<nat>>)
    requires ValidEnv(env) && ValidExprs(es, env)
    ensures vs.Some? ==> |vs.value| == Len(es) && AllBelow(vs.value, env.p)
  {
    match es
    case Nil => Some([])
    case Cons(h, t) =>
      var v := Value(h, env);
      var vs := Values(t, env);
      if v.None? || vs.None? then None else Some([v.value] + vs.value)
  }

  // ---- runs of code ----

  predicate At(code: Code, ip: nat, c: Code) {
    ip + |c| <= |code| && code[ip..ip + |c|] == c
  }

  lemma AtSplit(code: Code, ip: nat, a: Code, b: Code)
    requires At(code, ip, a + b)
    ensures At(code, ip, a) && At(code, ip + |a|, b)
  {
    assert (a + b)[..|a|] == a && (a + b)[|a|..] == b;
    assert code[ip..ip + |a + b|][..|a|] == code[ip..ip + |a|];
    assert code[ip..ip + |a + b|][|a|..] == code[ip + |a|..ip + |a + b|];
  }

  lemma AtOne(code: Code, ip: nat, i: nat)
    requires At(code, ip, [i])
    ensures ip < |code| && code[ip] == i
  {
  }

  /** The run from one state passes through another, with no count below 2 on the way. */
  ghost predicate Passes(code: Code, env: Env, ip: nat, s: Stack, ip': nat, s': Stack)
    requires ValidEnv(env)
  {
    && Exec(code, ip, s, env) == Exec(code, ip', s', env)
    && (CountsAtLeast(code, ip', s', env, 2) ==> CountsAtLeast(code, ip, s, env, 2))
  }

  ghost predicate Fails(code: Code, env: Env, ip: nat, s: Stack)
    requires ValidEnv(env)
  {
    Exec(code, ip, s, env) == Failed && CountsAtLeast(code, ip, s, env, 2)
  }

  lemma OneStep(code: Code, env: Env, ip: nat, s: Stack)
    requires ValidEnv(env) && ip < |code| && code[ip] != END
    requires Step(code, ip, s, env).Next? && (code[ip] == ADD || code[ip] == MUL ==> Top(s) >= 2)
    ensures Passes(code, env, ip, s, Step(code, ip, s, env).ip, Step(code, ip, s, env).stack)
  {
  }

  lemma OneFailure(code: Code, env: Env, ip: nat, s: Stack)
    requires ValidEnv(env) && ip < |code| && code[ip] != END && Step(code, ip, s, env) == DivisionByZero
    ensures Fails(code, env, ip, s)
  {
  }

  /** The static scan passes too. */
  predicate Scans(code: Code, ip: nat, d: nat, ip': nat, d': nat) {
    Scannable(code, ip', d') ==> Scannable(code, ip, d)
  }

  lemma {:induction false} ScannableMore(code: Code, ip: nat, d: nat, d': nat)
    requires Scannable(code, ip, d) && d <= d'
    ensures Scannable(code, ip, d')
    decreases |code| - ip
  {
    if code[ip] != END {
      var r, r' := StaticStep(code, ip, d), StaticStep(code, ip, d');
      ScannableMore(code, r.value.0, r.value.1, r'.value.1);
    }
  }

  /** The code of a number pushes it. */
  lemma MachineNumberStep(code: Code, env: Env, ip: nat, s: Stack, n: nat)
    requires ValidEnv(env) && n < B && At(code, ip, MachineNumber(n))
    ensures ip + |MachineNumber(n)| <= |code| && (code[ip] == SMALLNUM || code[ip] == MEDNUM)
    ensures Step(code, ip, s, env) == Next(ip + |MachineNumber(n)|, s + [n])
  {
    hide ValidEnv, Bytes;
    var c := MachineNumber(n);
    assert code[ip..ip + |c|][0] == code[ip] && code[ip..ip + |c|][1] == code[ip + 1];
    if n >= 256 {
      assert c[2..] == Bytes(n);
      assert code[ip..ip + |c|][2..] == code[ip + 2..ip + 2 + |Bytes(n)|];
      ReadBytes(code, ip + 2, n, 0);
      ReadNothing(code, ip + 2 + |Bytes(n)|, n);
    }
  }

  lemma ReadNothing(code: Code, ip: nat, n: nat)
    requires ip <= |code|
    ensures ReadNumber(code, ip, 0, n) == n
  {
  }

  lemma MachineNumberScan(code: Code, ip: nat, d: nat, n: nat)
    requires At(code, ip, MachineNumber(n))
    ensures Scans(code, ip, d, ip + |MachineNumber(n)|, d + 1)
  {
  }

  lemma MachineNumberRun(code: Code, env: Env, ip: nat, s: Stack, d: nat, n: nat)
    requires ValidEnv(env) && n < B && At(code, ip, MachineNumber(n))
    ensures Passes(code, env, ip, s, ip + |MachineNumber(n)|, s + [n])
    ensures Scans(code, ip, d, ip + |MachineNumber(n)|, d + 1)
  {
    hide *;
    MachineNumberStep(code, env, ip, s, n);
    MachineNumberScan(code, ip, d, n);
    NumberIsNoEnd(code, ip);
    OneStep(code, env, ip, s);
  }

  lemma NumberIsNoEnd(code: Code, ip: nat)
    requires ip < |code| && (code[ip] == SMALLNUM || code[ip] == MEDNUM)
    ensures code[ip] != END && code[ip] != ADD && code[ip] != MUL
  {
  }

  lemma NumberRun(code: Code, env: Env, ip: nat, s: Stack, d: nat, n: int)
    requires ValidEnv(env) && -HALF < n < HALF && -(env.p as int) < n < env.p && At(code, ip, NumberCode(n))
    ensures Passes(code, env, ip, s, ip + |NumberCode(n)|, s + [n % env.p])
    ensures Scans(code, ip, d, ip + |NumberCode(n)|, d + 1)
  {
    hide Scannable, Exec, CountsAtLeast, MachineNumber, ValidEnv, IsPrime;
    EnvPrime(env);
    if n < 0 {
      var c := MachineNumber(-n);
      AtSplit(code, ip, c, [NEG]);
      AtOne(code, ip + |c|, NEG);
      MachineNumberRun(code, env, ip, s, d, -n);
      OneStep(code, env, ip + |c|, s + [-n]);
      NegScan(code, ip + |c|, d);
    } else {
      MachineNumberRun(code, env, ip, s, d, n);
      QuotientUnique(n, env.p, 0, n);
    }
  }

  lemma NegScan(code: Code, ip: nat, d: nat)
    requires ip < |code| && code[ip] == NEG
    ensures Scans(code, ip, d + 1, ip + 1, d + 1)
  {
  }

  lemma IndexRun(code: Code, env: Env, ip: nat, s: Stack, d: nat, n: nat)
    requires ValidEnv(env) && n < B && At(code, ip, NumberCode(n))
    ensures Passes(code, env, ip, s, ip + |NumberCode(n)|, s + [n])
    ensures Scans(code, ip, d, ip + |NumberCode(n)|, d + 1)
  {
    hide Passes, Scans, At, MachineNumber, ValidEnv;
    MachineNumberRun(code, env, ip, s, d, n);
  }

  // ---- sums and products from the top of the stack ----

  lemma ModStep(x: nat, y: nat, z: nat, p: nat)
    requires p > 0
    ensures ((x + y) % p + z) % p == (x + (z + y)) % p
    ensures ((x * y) % p * z) % p == (x * (z * y)) % p
  {
    CongMod(x + y, p);
    CongMod(x * y, p);
    CongRefl(z, p);
    CongAdd((x + y) % p, x + y, z, z, p);
    CongModEq((x + y) % p + z, x + y + z, p);
    CongMul((x * y) % p, x * y, z, z, p);
    assert (x * y) * z == x * (z * y);
    CongModEq((x * y) % p * z, (x * y) * z, p);
  }

  lemma {:induction false} SumTopTotal(s: Stack, vs: seq<nat>, acc: nat, p: nat)
    requires p > 0 && acc < p
    ensures SumTop(s + vs, |vs|, acc, p) == (acc + Total(vs)) % p
    decreases |vs|
  {
    if vs == [] {
      QuotientUnique(acc, p, 0, acc);
    } else {
      var init, last := vs[..|vs| - 1], vs[|vs| - 1];
      assert Pop(s + vs) == s + init && Top(s + vs) == last;
      CongMod(acc + last, p);
      SumTopTotal(s, init, (acc + last) % p, p);
      ModStep(acc, last, Total(init), p);
    }
  }

  lemma {:induction false} ProductTopTotal(s: Stack, vs: seq<nat>, acc: nat, p: nat)
    requires p > 0 && acc < p
    ensures ProductTop(s + vs, |vs|, acc, p) == (acc * TotalProduct(vs)) % p
    decreases |vs|
  {
    if vs == [] {
      QuotientUnique(acc, p, 0, acc);
    } else {
      var init, last := vs[..|vs| - 1], vs[|vs| - 1];
      assert Pop(s + vs) == s + init && Top(s + vs) == last;
      CongMod(acc * last, p);
      ProductTopTotal(s, init, acc * last % p, p);
      ModStep(acc, last, TotalProduct(init), p);
    }
  }

  lemma StackParts(s: Stack, vs: seq<nat>, n: nat)
    requires |vs| == n >= 1
    ensures var t := s + vs + [n];
      && Top(t) == n && Pop(t) == s + vs && Top(Pop(t)) == vs[n - 1] && Pop(Pop(t)) == s + vs[..n - 1]
      && Drop(t, n + 1) == s && t[|t| - 1 - n..|t| - 1] == vs
  {
  }

  lemma FoldUnfold(code: Code, env: Env, ip: nat, t: Stack)
    requires ValidEnv(env) && ip < |code| && Operands(t, env.p) && env.p > 0
    ensures code[ip] == ADD ==>
      Step(code, ip, t, env) == Next(ip + 1, Drop(t, Top(t) + 1) + [SumTop(Pop(Pop(t)), Top(t) - 1, Top(Pop(t)), env.p)])
    ensures code[ip] == MUL ==>
      Step(code, ip, t, env) == Next(ip + 1, Drop(t, Top(t) + 1) + [ProductTop(Pop(Pop(t)), Top(t) - 1, Top(Pop(t)), env.p)])
  {
  }

  lemma AddStep(code: Code, env: Env, ip: nat, s: Stack, vs: seq<nat>)
    requires ValidEnv(env) && ip < |code| && code[ip] == ADD && |vs| >= 2 && AllBelow(vs, env.p)
    ensures Step(code, ip, s + vs + [|vs|], env) == Next(ip + 1, s + [Total(vs) % env.p])
  {
    hide ValidEnv, SumTop, Step;
    EnvPrime(env);
    var n := |vs|;
    StackParts(s, vs, n);
    FoldUnfold(code, env, ip, s + vs + [n]);
    SumTopTotal(s, vs[..n - 1], vs[n - 1], env.p);
  }

  lemma MulStep(code: Code, env: Env, ip: nat, s: Stack, vs: seq<nat>)
    requires ValidEnv(env) && ip < |code| && code[ip] == MUL && |vs| >= 2 && AllBelow(vs, env.p)
    ensures Step(code, ip, s + vs + [|vs|], env) == Next(ip + 1, s + [TotalProduct(vs) % env.p])
  {
    hide ValidEnv, ProductTop, TotalProduct, Step;
    EnvPrime(env);
    var n := |vs|;
    StackParts(s, vs, n);
    FoldUnfold(code, env, ip, s + vs + [n]);
    ProductTopTotal(s, vs[..n - 1], vs[n - 1], env.p);
    ProductLast(vs);
  }

  lemma ProductLast(vs: seq<nat>)
    requires vs != []
    ensures vs[|vs| - 1] * TotalProduct(vs[..|vs| - 1]) == TotalProduct(vs)
  {
    assert TotalProduct(vs[..|vs| - 1]) * vs[|vs| - 1] == vs[|vs| - 1] * TotalProduct(vs[..|vs| - 1]);
  }

  lemma ExponentSmall(k: nat)
    requires k < 0x1_0000_0000
    ensures Exponent(k) == k
  {
  }

  lemma PowerStep(code: Code, env: Env, ip: nat, s: Stack, v: nat, k: nat)
    requires ValidEnv(env) && ip < |code| && v < env.p && k < 0x1_0000_0000
    ensures code[ip] == POW ==> Step(code, ip, s + [v] + [k], env) == Next(ip + 1, s + [Pow(v, k) % env.p])
    ensures code[ip] == NEGPOW && v == 0 ==> Step(code, ip, s + [v] + [k], env) == DivisionByZero
    ensures code[ip] == NEGPOW && v > 0 ==> 0 < Pow(v, k) % env.p < env.p
    ensures code[ip] == NEGPOW && v > 0 ==>
      Step(code, ip, s + [v] + [k], env) == Next(ip + 1, s + [Inverse(Pow(v, k) % env.p, env.p)])
  {
    hide Pow, Exponent, IsPrime;
    ExponentSmall(k);
    var t := s + [v] + [k];
    assert Pop(t) == s + [v] && Drop(t, 2) == s && Top(t) == k && Top(Pop(t)) == v;
    if v > 0 {
      PowerNotZero(v, k, env.p);
    }
  }

  lemma TableStep(code: Code, env: Env, ip: nat, s: Stack, i: nat, d: nat)
    requires ValidEnv(env) && ip < |code|
    ensures code[ip] == VAR && i < |env.input| ==> Step(code, ip, s + [i], env) == Next(ip + 1, s + [env.input[i]])
    ensures code[ip] == BIGNUM && i < |env.bignums| ==> Step(code, ip, s + [i], env) == Next(ip + 1, s + [env.bignums[i]])
    ensures code[ip] == VARPOW && i < |env.varpows| ==> Step(code, ip, s + [i], env) == Next(ip + 1, s + [env.varpows[i]])
    ensures code[ip] in {VAR, BIGNUM, VARPOW} ==> Scans(code, ip, d + 1, ip + 1, d + 1)
  {
  }

  lemma NegStep(code: Code, env: Env, ip: nat, s: Stack, v: nat)
    requires ValidEnv(env) && ip < |code| && code[ip] == NEG && v < env.p
    ensures Step(code, ip, s + [v], env) == Next(ip + 1, s + [(0 - v) % env.p])
  {
  }

  lemma PowerScan(code: Code, ip: nat, d: nat)
    requires ip < |code| && (code[ip] == POW || code[ip] == NEGPOW)
    ensures Scans(code, ip, d + 2, ip + 1, d + 1)
  {
  }

  /** n entries and their count are scanned as three entries replaced by one, which is never too few. */
  lemma FoldScan(code: Code, ip: nat, d: nat, n: nat)
    requires ip < |code| && (code[ip] == ADD || code[ip] == MUL) && n >= 2
    ensures Scans(code, ip, d + n + 1, ip + 1, d + 1)
  {
    if Scannable(code, ip + 1, d + 1) {
      ScannableMore(code, ip + 1, d + 1, d + n - 1);
    }
  }

  // ---- correctness ----

  /** What running compiled code does: it pushes the value or fails, and the scan counts one entry. */
  ghost predicate RunsTo(code: Code, env: Env, ip: nat, s: Stack, d: nat, size: nat, v: Option<nat>)
    requires ValidEnv(env)
  {
    && Scans(code, ip, d, ip + size, d + 1)
    && match v case None => Fails(code, env, ip, s) case Some(x) => Passes(code, env, ip, s, ip + size, s + [x])
  }

  ghost predicate RunsToAll(code: Code, env: Env, ip: nat, s: Stack, d: nat, size: nat, n: nat, vs: Option<seq<nat>>)
    requires ValidEnv(env)
  {
    && Scans(code, ip, d, ip + size, d + n)
    && match vs case None => Fails(code, env, ip, s) case Some(xs) => Passes(code, env, ip, s, ip + size, s + xs)
  }

  /** An index and an instruction that looks it up. */
  lemma TableRun(code: Code, env: Env, ip: nat, s: Stack, d: nat, i: nat, op: nat, v: nat)
    requires ValidEnv(env) && i < B && op in {VAR, BIGNUM, VARPOW} && At(code, ip, NumberCode(i) + [op])
    requires op == VAR ==> i < |env.input| && v == env.input[i]
    requires op == BIGNUM ==> i < |env.bignums| && v == env.bignums[i]
    requires op == VARPOW ==> i < |env.varpows| && v == env.varpows[i]
    ensures RunsTo(code, env, ip, s, d, |NumberCode(i) + [op]|, Some(v))
  {
    hide Exec, CountsAtLeast, Step, NumberCode, ValidEnv, Scannable, At;
    var c := NumberCode(i);
    AtSplit(code, ip, c, [op]);
    AtOne(code, ip + |c|, op);
    IndexRun(code, env, ip, s, d, i);
    TableStep(code, env, ip + |c|, s, i, d);
    OneStep(code, env, ip + |c|, s + [i]);
  }

  /** An operand that has run, then a number and a power instruction. */
  lemma PowerRun(code: Code, env: Env, ip: nat, s: Stack, d: nat, c: Code, k: nat, op: nat, v: Option<nat>)
    requires ValidEnv(env) && k < 0x1_0000_0000 && (op == POW || op == NEGPOW) && At(code, ip, c + NumberCode(k) + [op])
    requires RunsTo(code, env, ip, s, d, |c|, v) && (v.Some? ==> v.value < env.p)
    ensures op == POW ==>
      RunsTo(code, env, ip, s, d, |c + NumberCode(k) + [op]|, if v.None? then None else Some(Pow(v.value, k) % env.p))
    ensures op == NEGPOW && v.Some? && v.value > 0 ==> 0 < Pow(v.value, k) % env.p < env.p
    ensures op == NEGPOW && v.Some? && v.value > 0 ==>
      RunsTo(code, env, ip, s, d, |c + NumberCode(k) + [op]|, Some(Inverse(Pow(v.value, k) % env.p, env.p)))
    ensures op == NEGPOW && (v.None? || v.value == 0) ==> RunsTo(code, env, ip, s, d, |c + NumberCode(k) + [op]|, None)
  {
    hide Exec, CountsAtLeast, Step, NumberCode, Scannable, At, Pow, IsPrime;
    var i := ip + |c|;
    var j := i + |NumberCode(k)|;
    AtSplit(code, ip, c + NumberCode(k), [op]);
    AtSplit(code, ip, c, NumberCode(k));
    AtOne(code, j, op);
    PowerScan(code, j, d);
    IndexRun(code, env, i, s, d + 1, k);
    if v.Some? {
      var t := s + [v.value];
      IndexRun(code, env, i, t, d + 1, k);
      PowerStep(code, env, j, s, v.value, k);
      if op == NEGPOW && v.value == 0 {
        OneFailure(code, env, j, t + [k]);
      } else {
        OneStep(code, env, j, t + [k]);
      }
    }
  }

  /** Terms that have run, then their number and ADD or MUL. */
  lemma FoldRun(code: Code, env: Env, ip: nat, s: Stack, d: nat, c: Code, n: nat, op: nat, vs: Option<seq<nat>>)
    requires ValidEnv(env) && 2 <= n < B && (op == ADD || op == MUL) && At(code, ip, c + NumberCode(n) + [op])
    requires RunsToAll(code, env, ip, s, d, |c|, n, vs) && (vs.Some? ==> |vs.value| == n && AllBelow(vs.value, env.p))
    ensures RunsTo(code, env, ip, s, d, |c + NumberCode(n) + [op]|, if vs.None? then None
      else Some((if op == ADD then Total(vs.value) else TotalProduct(vs.value)) % env.p))
  {
    hide Exec, CountsAtLeast, Step, NumberCode, Scannable, At, Total, TotalProduct, IsPrime;
    var i := ip + |c|;
    var j := i + |NumberCode(n)|;
    AtSplit(code, ip, c + NumberCode(n), [op]);
    AtSplit(code, ip, c, NumberCode(n));
    AtOne(code, j, op);
    FoldScan(code, j, d, n);
    IndexRun(code, env, i, s, d + n, n);
    if vs.Some? {
      var t := s + vs.value;
      IndexRun(code, env, i, t, d + n, n);
      if op == ADD {
        AddStep(code, env, j, s, vs.value);
      } else {
        MulStep(code, env, j, s, vs.value);
      }
      OneStep(code, env, j, t + [n]);
    }
  }

  lemma NegatedRun(code: Code, env: Env, ip: nat, s: Stack, d: nat, c: Code, v: Option<nat>)
    requires ValidEnv(env) && At(code, ip, c + [NEG])
    requires RunsTo(code, env, ip, s, d, |c|, v) && (v.Some? ==> v.value < env.p)
    ensures RunsTo(code, env, ip, s, d, |c + [NEG]|, if v.None? then None else Some((0 - v.value) % env.p))
  {
    hide Exec, CountsAtLeast, Step, Scannable, At;
    var i := ip + |c|;
    AtSplit(code, ip, c, [NEG]);
    AtOne(code, i, NEG);
    NegScan(code, i, d);
    if v.Some? {
      NegStep(code, env, i, s, v.value);
      OneStep(code, env, i, s + [v.value]);
    }
  }

  /** Compiled code does what the expression means. */
  lemma {:induction false} CompileRun(e: Expr, code: Code, env: Env, ip: nat, s: Stack, d: nat)
    requires ValidEnv(env) && ValidExpr(e, env) && At(code, ip, Compile(e))
    ensures RunsTo(code, env, ip, s, d, |Compile(e)|, Value(e, env))
    decreases e
  {
    hide Exec, CountsAtLeast, Step, NumberCode, Scannable, At, ValidEnv, RunsTo, RunsToAll, Total, TotalProduct, Pow;
    EnvPrime(env);
    match e
    case Number(n) =>
      NumberRun(code, env, ip, s, d, n);
      NumberRunsTo(code, env, ip, s, d, n);
    case Input(i) => TableRun(code, env, ip, s, d, i, VAR, env.input[i]);
    case BigNumber(i) => TableRun(code, env, ip, s, d, i, BIGNUM, env.bignums[i]);
    case InputPower(i) => TableRun(code, env, ip, s, d, i, VARPOW, env.varpows[i]);
    case SumOf(args) =>
      AtSplit(code, ip, CompileAll(args) + NumberCode(Len(args)), [ADD]);
      AtSplit(code, ip, CompileAll(args), NumberCode(Len(args)));
      CompileAllRun(args, code, env, ip, s, d);
      FoldRun(code, env, ip, s, d, CompileAll(args), Len(args), ADD, Values(args, env));
    case ProductOf(args) =>
      AtSplit(code, ip, CompileAll(args) + NumberCode(Len(args)), [MUL]);
      AtSplit(code, ip, CompileAll(args), NumberCode(Len(args)));
      CompileAllRun(args, code, env, ip, s, d);
      FoldRun(code, env, ip, s, d, CompileAll(args), Len(args), MUL, Values(args, env));
    case Negated(x) =>
      AtSplit(code, ip, Compile(x), [NEG]);
      CompileRun(x, code, env, ip, s, d);
      NegatedRun(code, env, ip, s, d, Compile(x), Value(x, env));
    case Power(x, k) =>
      AtSplit(code, ip, Compile(x) + NumberCode(k), [POW]);
      AtSplit(code, ip, Compile(x), NumberCode(k));
      CompileRun(x, code, env, ip, s, d);
      PowerRun(code, env, ip, s, d, Compile(x), k, POW, Value(x, env));
    case InversePower(x, k) =>
      AtSplit(code, ip, Compile(x) + NumberCode(k), [NEGPOW]);
      AtSplit(code, ip, Compile(x), NumberCode(k));
      CompileRun(x, code, env, ip, s, d);
      PowerRun(code, env, ip, s, d, Compile(x), k, NEGPOW, Value(x, env));
  }

  lemma NumberRunsTo(code: Code, env: Env, ip: nat, s: Stack, d: nat, n: int)
    requires ValidEnv(env)
    requires Passes(code, env, ip, s, ip + |NumberCode(n)|, s + [n % env.p]) && Scans(code, ip, d, ip + |NumberCode(n)|, d + 1)
    ensures RunsTo(code, env, ip, s, d, |NumberCode(n)|, Some(n % env.p))
  {
  }

  lemma {:induction false} CompileAllRun(es: Exprs, code: Code, env: Env, ip: nat, s: Stack, d: nat)
    requires ValidEnv(env) && ValidExprs(es, env) && At(code, ip, CompileAll(es))
    ensures RunsToAll(code, env, ip, s, d, |CompileAll(es)|, Len(es), Values(es, env))
    decreases es
  {
    hide Exec, CountsAtLeast, Step, Compile, Scannable, At, ValidEnv;
    match es
    case Nil =>
      assert s + [] == s;
    case Cons(h, t) =>
      var c := Compile(h);
      AtSplit(code, ip, c, CompileAll(t));
      CompileRun(h, code, env, ip, s, d);
      CompileAllRun(t, code, env, ip + |c|, s, d + 1);
      if Value(h, env).Some? {
        var x := Value(h, env).value;
        CompileAllRun(t, code, env, ip + |c|, s + [x], d + 1);
        if Values(t, env).Some? {
          assert s + [x] + Values(t, env).value == s + ([x] + Values(t, env).value);
        }
      }
  }

  // ---- whole bytecodes ----

  /** A compiled expression ended by END never underflows, stays within the static bound, and leaves
      exactly the value, or fails when a denominator vanishes. */
  lemma CompiledCorrect(e: Expr, env: Env)
    requires ValidEnv(env) && ValidExpr(e, env)
    ensures var code := Compile(e) + [END];
      && Scannable(code, 0, 0) && CountsAtLeast(code, 0, [], env, 2)
      && AtMost(code, 0, [], env, StaticMax(code, 0, 0))
      && Exec(code, 0, [], env) == match Value(e, env) case None => Failed case Some(v) => Done([v])
  {
    hide Step, Compile, StaticMax, AtMost, ValidEnv;
    var code := Compile(e) + [END];
    assert code[0..|Compile(e)|] == Compile(e);
    CompileRun(e, code, env, 0, [], 0);
    assert code[|Compile(e)|] == END;
    StackBound(code, 0, [], 0, env, StaticMax(code, 0, 0));
  }

  /** Compiling, bounding the stack and running give the value of the expression. */
  method EvaluateExpression(e: Expr, env: Env, p: Mod) returns (res: Option<nat>)
    requires ValidEnv(env) && FFMod.Valid(p) && p.n == env.p && ValidExpr(e, env)
    ensures res == Value(e, env)
  {
    hide *;
    CompiledCorrect(e, env);
    var code := Compile(e) + [END];
    var size := ComputeMaxStackSize([code]);
    assert [code][0] == code;
    BoundAtMost(code, 0, [], env, StaticMax(code, 0, 0), size);
    var stack := new nat[size];
    res := Run(code, stack, env, p);
    TopOfOne();
  }

  lemma TopOfOne()
    ensures forall v: nat :: Top([v]) == v
  {
  }

  lemma {:induction false} BoundAtMost(code: Code, ip: nat, s: Stack, env: Env, a: nat, b: nat)
    requires ValidEnv(env) && AtMost(code, ip, s, env, a) && a <= b
    ensures AtMost(code, ip, s, env, b)
    decreases |code| - ip
  {
    hide Step, ValidEnv;
    if ip < |code| && code[ip] != END && Step(code, ip, s, env).Next? {
      BoundAtMost(code, Step(code, ip, s, env).ip, Step(code, ip, s, env).stack, env, a, b);
    }
  }
}
