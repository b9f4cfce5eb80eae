/** Day 8, Handheld Halting: a boot program of `acc`, `jmp` and `nop`
    instructions runs until an instruction is about to repeat (part 1) or the
    program counter leaves the program (part 2, after flipping one `jmp`/`nop`).

    The original never marks instruction 0 as visited before running it, so a
    program that jumps back to 0 runs it twice before the loop is noticed. The
    run is modelled as written (`Execute`) and as intended (`ExecuteOnce`). */
module Day8 {
  import opened Wrappers
  import opened Strings
  import Seqs

  /** The operation name; any name other than the three is kept and only
      rejected when the instruction runs. */
  datatype Operation = Acc | Jmp | Nop | Unknown(name: string)

  datatype Instruction = Instruction(operation: Operation, argument: int, addition: bool)

  function OperationOf(name: string): (op: Operation)
    ensures op.Unknown? <==> name !in {"acc", "jmp", "nop"}
  {
    if name == "acc" then Acc else if name == "jmp" then Jmp else if name == "nop" then Nop else Unknown(name)
  }

  /** `Instruction.Parse`: split on a space; the argument is the second part
      without its sign character, and the sign decides `Addition`. */
  function ParseInstruction(line: string): (r: Result<Instruction>)
    ensures r.Ok? ==> r.value.argument >= -0x8000_0000
  {
    var parts := Split(line, " ");
    if |parts| < 2 then Err("Index was outside the bounds of the array")
    else if |parts[1]| == 0 then Err("Index was out of range")
    else match ParseInt32(parts[1][1..])
      case None => Err("Input string was not in a correct format")
      case Some(v) => Ok(Instruction(OperationOf(parts[0]), v, parts[1][0] == '+'))
  }

  /** The text of an instruction: name, a space, a sign and digits. */
  function InstructionText(name: string, sign: char, digits: string): string {
    name + " " + [sign] + digits
  }

  /** Parsing inverts `InstructionText` for names without spaces and
      arguments within the 32-bit range. */
  lemma ParseInstructionText(name: string, sign: char, digits: string)
    requires ' ' !in name && (sign == '+' || sign == '-')
    requires |digits| > 0 && AllDigits(digits) && DigitsValue(digits) < 0x8000_0000
    ensures ParseInstruction(InstructionText(name, sign, digits))
         == Ok(Instruction(OperationOf(name), DigitsValue(digits), sign == '+'))
  {
    SplitInstructionText(name, sign, digits);
    var arg := [sign] + digits;
    assert arg[1..] == digits && arg[0] == sign;
    assert ParseInt32(digits) == Some(DigitsValue(digits));
  }

  lemma SplitInstructionText(name: string, sign: char, digits: string)
    requires ' ' !in name && (sign == '+' || sign == '-') && AllDigits(digits)
    ensures Split(InstructionText(name, sign, digits), " ") == [name, [sign] + digits]
  {
    var arg := [sign] + digits;
    assert ' ' !in arg by {
      assert forall i :: 0 <= i < |digits| ==> IsDigit(digits[i]);
    }
    assert InstructionText(name, sign, digits) == name + [' '] + arg;
    SplitAtFirst(name, ' ', arg);
    SplitNoSeparator(arg, ' ');
  }

  function ParseProgram(lines: seq<string>): (r: Result<seq<Instruction>>)
    ensures r.Ok? ==> |r.value| == |lines|
    ensures r.Ok? ==> forall k :: 0 <= k < |lines| ==> ParseInstruction(lines[k]) == Ok(r.value[k])
  {
    if |lines| == 0 then Ok([])
    else
      var first :- ParseInstruction(lines[0]);
      var rest :- ParseProgram(lines[1..]);
      Ok([first] + rest)
  }

  /** `ExecuteInstruction` at `pc`: reading outside the program throws, and
      so does an unknown operation. Returns the next counter and accumulator. */
  function Step(program: seq<Instruction>, pc: int, acc: int): (r: Result<(int, int)>)
    ensures r.Ok? ==> 0 <= pc < |program|
  {
    if !(0 <= pc < |program|) then Err("Index was outside the bounds of the array")
    else
      var ins := program[pc];
      var delta := if ins.addition then ins.argument else -ins.argument;
      match ins.operation
      case Acc => Ok((pc + 1, acc + delta))
      case Jmp => Ok((pc + delta, acc))
      case Nop => Ok((pc + 1, acc))
      case Unknown(_) => Err("Unknown operation")
  }

  /** Reference semantics: the state after `n` steps from counter 0 and
      accumulator 0. */
  function Steps(program: seq<Instruction>, n: nat): Result<(int, int)> {
    if n == 0 then Ok((0, 0))
    else
      match Steps(program, n - 1)
      case Ok((pc, acc)) => Step(program, pc, acc)
      case Err(e) => Err(e)
  }

  /** How a run ends: the accumulator, whether the counter left the program,
      the counters executed in order, and the counter it stopped at. */
  datatype Outcome = Outcome(accumulator: int, terminated: bool, executed: seq<int>, next: int)

  /** Every counter in `visited` is one of the `n` instructions. */
  predicate Bounded(visited: set<int>, n: nat) {
    forall x :: x in visited ==> 0 <= x < n
  }

  function Range(n: nat): (s: set<int>)
    ensures |s| == n
    ensures forall i :: i in s <==> 0 <= i < n
  {
    if n == 0 then {} else Range(n - 1) + {n - 1}
  }

  /** A bounded set that misses a counter holds fewer than `n` counters. */
  lemma ProperSubsetSmaller(a: set<int>, n: nat, x: int)
    requires Bounded(a, n) && 0 <= x < n && x !in a
    ensures |a| < n
  {
    var b := Range(n);
    assert a <= b;
    assert b == a + (b - a);
    assert x in b - a;
  }

  /** The `while` loop of `ExecuteUntilLoopOrTermination` from counter `pc`:
      run the instruction, then stop when the new counter is in `visited` (a
      loop) or past the end (termination); otherwise record it and go on. A
      negative counter throws at the next read. */
  function Run(program: seq<Instruction>, pc: int, acc: int, visited: set<int>): (r: Result<Outcome>)
    requires 0 <= pc < |program| && Bounded(visited, |program|)
    ensures r.Ok? ==> |r.value.executed| >= 1 && r.value.executed[0] == pc
    ensures r.Ok? ==> (r.value.terminated <==> r.value.next >= |program|)
    decreases |program| - |visited|
  {
    var (pc', acc') :- Step(program, pc, acc);
    if pc' in visited then Ok(Outcome(acc', false, [pc], pc'))
    else if pc' >= |program| then Ok(Outcome(acc', true, [pc], pc'))
    else if pc' < 0 then Err("Index was outside the bounds of the array")
    else
      assert |visited| < |program| by {
        ProperSubsetSmaller(visited, |program|, pc');
      }
      var r :- Run(program, pc', acc', visited + {pc'});
      Ok(Outcome(r.accumulator, r.terminated, [pc] + r.executed, r.next))
  }

  /** What the visited set buys: after the first instruction no counter in
      `visited` runs and no counter runs twice, and a run that does not
      terminate stops at a counter that already ran or was visited. */
  predicate StopsBeforeRepeating(o: Outcome, visited: set<int>) {
    |o.executed| >= 1
    && (forall k :: 1 <= k < |o.executed| ==> o.executed[k] !in visited)
    && Seqs.NoDup(o.executed[1..])
    && (!o.terminated ==> o.next in visited || o.next in o.executed[1..])
  }

  lemma {:induction false} RunStopsBeforeRepeating(program: seq<Instruction>, pc: int, acc: int, visited: set<int>)
    requires 0 <= pc < |program| && Bounded(visited, |program|)
    requires Run(program, pc, acc, visited).Ok?
    ensures StopsBeforeRepeating(Run(program, pc, acc, visited).value, visited)
    decreases |program| - |visited|
  {
    RunStepOk(program, pc, acc, visited);
    var st := Step(program, pc, acc).value;
    var o := Run(program, pc, acc, visited).value;
    RunUnfold(program, pc, acc, visited, st.0, st.1, o);
    if st.0 !in visited && st.0 < |program| {
      RunStopsBeforeRepeating(program, st.0, st.1, visited + {st.0});
      var r := Run(program, st.0, st.1, visited + {st.0}).value;
      assert o.executed[1..] == r.executed;
      assert r.executed[1..] == o.executed[2..];
      forall k | 1 <= k < |r.executed| ensures r.executed[k] != st.0 {
        assert r.executed[k] !in visited + {st.0};
      }
    }
  }

  /** `ExecuteUntilLoopOrTermination` as written: counter 0 runs first and is
      not recorded as visited. An empty program throws at the first read. */
  function Execute(program: seq<Instruction>): Result<Outcome> {
    if |program| == 0 then Err("Index was outside the bounds of the array")
    else Run(program, 0, 0, {})
  }

  /** As intended: counter 0 counts as visited from the start, so no
      instruction runs twice and a loop stops at the first repeat. */
  function ExecuteOnce(program: seq<Instruction>): (r: Result<Outcome>)
    ensures r.Ok? ==> Seqs.NoDup(r.value.executed)
    ensures r.Ok? && !r.value.terminated ==> r.value.next in r.value.executed
  {
    if |program| == 0 then Err("Index was outside the bounds of the array")
    else
      var r :- Run(program, 0, 0, {0});
      RunStopsBeforeRepeating(program, 0, 0, {0});
      assert r.executed == [0] + r.executed[1..];
      Ok(r)
  }

  lemma StepsNext(program: seq<Instruction>, n: nat, pc: int, acc: int)
    requires Steps(program, n) == Ok((pc, acc))
    ensures Steps(program, n + 1) == Step(program, pc, acc)
  {
  }

  lemma RunStepOk(program: seq<Instruction>, pc: int, acc: int, visited: set<int>)
    requires 0 <= pc < |program| && Bounded(visited, |program|)
    requires Run(program, pc, acc, visited).Ok?
    ensures Step(program, pc, acc).Ok?
  {
  }

  /** One unfolding of `Run` whose first instruction leads from `pc` to
      `next`: either the run stops there, or it continues from `next` with
      `next` recorded. */
  lemma RunUnfold(program: seq<Instruction>, pc: int, acc: int, visited: set<int>, next: int, acc': int, o: Outcome)
    requires 0 <= pc < |program| && Bounded(visited, |program|)
    requires Step(program, pc, acc) == Ok((next, acc'))
    requires Run(program, pc, acc, visited) == Ok(o)
    ensures next in visited || next >= |program| ==>
      o.executed == [pc] && o.next == next && o.accumulator == acc'
    ensures next !in visited && next < |program| ==>
      0 <= next && |visited| < |program| && Bounded(visited + {next}, |program|)
      && Run(program, next, acc', visited + {next}).Ok?
      && o.executed == [pc] + Run(program, next, acc', visited + {next}).value.executed
      && o.next == Run(program, next, acc', visited + {next}).value.next
      && o.accumulator == Run(program, next, acc', visited + {next}).value.accumulator
  {
    if next !in visited && 0 <= next < |program| {
      ProperSubsetSmaller(visited, |program|, next);
    }
  }

  /** Both runs follow the reference semantics: after the run from the
      state reached in `n` steps, the state is the one reached in `n` plus
      the number of instructions executed. */
  lemma {:induction false} RunEndsAtSteps(program: seq<Instruction>, pc: int, acc: int, visited: set<int>, n: nat, o: Outcome)
    requires 0 <= pc < |program| && Bounded(visited, |program|)
    requires Steps(program, n) == Ok((pc, acc))
    requires Run(program, pc, acc, visited) == Ok(o)
    ensures Steps(program, n + |o.executed|) == Ok((o.next, o.accumulator))
    decreases |program| - |visited|
  {
    RunStepOk(program, pc, acc, visited);
    StepsNext(program, n, pc, acc);
    var st := Step(program, pc, acc).value;
    RunUnfold(program, pc, acc, visited, st.0, st.1, o);
    if st.0 !in visited && st.0 < |program| {
      var r := Run(program, st.0, st.1, visited + {st.0}).value;
      RunEndsAtSteps(program, st.0, st.1, visited + {st.0}, n + 1, r);
      assert (n + 1) + |r.executed| == n + |o.executed|;
    }
  }

  /** The counter after `m` steps is `pc`. */
  predicate CounterAfter(program: seq<Instruction>, m: nat, pc: int) {
    Steps(program, m).Ok? && Steps(program, m).value.0 == pc
  }

  /** ... and the k-th counter executed is the counter after `n + k` steps. */
  lemma {:induction false} RunTraceFollowsSteps(program: seq<Instruction>, pc: int, acc: int, visited: set<int>, n: nat, o: Outcome, k: nat)
    requires 0 <= pc < |program| && Bounded(visited, |program|)
    requires Steps(program, n) == Ok((pc, acc))
    requires Run(program, pc, acc, visited) == Ok(o)
    requires k < |o.executed|
    ensures CounterAfter(program, n + k, o.executed[k])
    decreases |program| - |visited|
  {
    if k > 0 {
      RunStepOk(program, pc, acc, visited);
      StepsNext(program, n, pc, acc);
      var st := Step(program, pc, acc).value;
      RunUnfold(program, pc, acc, visited, st.0, st.1, o);
      var r := Run(program, st.0, st.1, visited + {st.0}).value;
      assert o.executed[k] == r.executed[k - 1];
      RunTraceFollowsSteps(program, st.0, st.1, visited + {st.0}, n + 1, r, k - 1);
      assert (n + 1) + (k - 1) == n + k;
    } else {
      RunStarts(program, pc, acc, visited, o);
    }
  }

  lemma RunStarts(program: seq<Instruction>, pc: int, acc: int, visited: set<int>, o: Outcome)
    requires 0 <= pc < |program| && Bounded(visited, |program|)
    requires Run(program, pc, acc, visited) == Ok(o)
    ensures o.executed[0] == pc
  {
  }

  /** The source runs instruction 0 twice here: the accumulator it reports
      is 2, while the value before any instruction repeats is 1. */
  lemma ExecuteRepeatsFirstInstruction()
    ensures Execute([Instruction(Acc, 1, true), Instruction(Jmp, 1, false)]).Ok?
    ensures Execute([Instruction(Acc, 1, true), Instruction(Jmp, 1, false)]).value.executed == [0, 1, 0]
    ensures Execute([Instruction(Acc, 1, true), Instruction(Jmp, 1, false)]).value.accumulator == 2
    ensures ExecuteOnce([Instruction(Acc, 1, true), Instruction(Jmp, 1, false)]).value.accumulator == 1
  {
    var p := [Instruction(Acc, 1, true), Instruction(Jmp, 1, false)];
    assert Step(p, 0, 0) == Ok((1, 1));
    assert Step(p, 1, 1) == Ok((0, 1));
    assert Step(p, 0, 1) == Ok((1, 2));
    var none: set<int> := {};
    assert {1} + {0} == {0, 1} && none + {1} == {1} && {0} + {1} == {0, 1};
    RunContinues(p, 1, 1, {1}, Outcome(2, false, [0], 1));
    assert [1] + [0] == [1, 0];
    RunContinues(p, 0, 0, none, Outcome(2, false, [1, 0], 1));
    assert [0] + [1, 0] == [0, 1, 0];
    RunContinues(p, 0, 0, {0}, Outcome(1, false, [1], 0));
  }

  /** `Run` when the first instruction leads to a fresh counter inside the
      program: the rest of the run is the run from there. */
  lemma RunContinues(program: seq<Instruction>, pc: int, acc: int, visited: set<int>, rest: Outcome)
    requires 0 <= pc < |program| && Bounded(visited, |program|)
    requires Step(program, pc, acc).Ok?
    requires var (pc', acc') := Step(program, pc, acc).value;
             pc' !in visited && 0 <= pc' < |program|
             && Run(program, pc', acc', visited + {pc'}) == Ok(rest)
    ensures Run(program, pc, acc, visited) == Ok(Outcome(rest.accumulator, rest.terminated, [pc] + rest.executed, rest.next))
  {
    var (pc', acc') := Step(program, pc, acc).value;
    ProperSubsetSmaller(visited, |program|, pc');
  }

  /** Part 1: the accumulator when the loop is detected: the accumulator of
      the reference semantics after as many steps as the run took, a run in
      which no counter after the first repeats. */
  function Part1(lines: seq<string>): (r: Result<int>)
    ensures r.Ok? ==> ParseProgram(lines).Ok? && Execute(ParseProgram(lines).value).Ok?
    ensures r.Ok? ==>
              var program := ParseProgram(lines).value;
              var o := Execute(program).value;
              && Steps(program, |o.executed|) == Ok((o.next, r.value))
              && StopsBeforeRepeating(o, {})
  {
    var program :- ParseProgram(lines);
    var o :- Execute(program);
    ExecuteFollowsSteps(program);
    Ok(o.accumulator)
  }

  /** A whole run from counter 0 follows the reference semantics and stops
      before any counter after the first repeats. */
  lemma ExecuteFollowsSteps(program: seq<Instruction>)
    requires Execute(program).Ok?
    ensures var o := Execute(program).value;
      && Steps(program, |o.executed|) == Ok((o.next, o.accumulator))
      && StopsBeforeRepeating(o, {})
  {
    var o := Execute(program).value;
    assert Run(program, 0, 0, {}) == Ok(o);
    assert Steps(program, 0) == Ok((0, 0));
    RunEndsAtSteps(program, 0, 0, {}, 0, o);
    RunStopsBeforeRepeating(program, 0, 0, {});
  }

  // ------------------------------------------------------------ part 2

  /** `FlipJmpNop`: every `nop` becomes `jmp`, or else every `jmp` becomes
      `nop`. */
  function Flip(line: string): string {
    if Contains(line, "nop", false) then Replace(line, "nop", "jmp", false)
    else if Contains(line, "jmp", false) then Replace(line, "jmp", "nop", false)
    else line
  }

  /** No occurrence of `pat` when its first character does not occur. */
  lemma NoMatchWithoutFirst(s: string, pat: string)
    requires |pat| > 0 && pat[0] !in s
    ensures forall i: nat :: !MatchesAt(s, i, pat, false)
  {
    forall i: nat ensures !MatchesAt(s, i, pat, false) {
      if i < |s| {
        assert s[i] != pat[0];
        assert !CharEq(s[i + 0], pat[0], false);
      }
    }
  }

  /** Replacing a three-letter name at the front of a line whose rest does
      not contain the name's first letter. */
  lemma ReplaceFront(name: string, rest: string, rep: string)
    requires |name| == 3 && name[0] !in rest
    ensures Replace(name + rest, name, rep, false) == rep + rest
  {
    var s := name + rest;
    assert MatchesAt(s, 0, name, false) by {
      forall k | 0 <= k < |name| ensures CharEq(s[0 + k], name[k], false) {
        assert s[k] == name[k];
      }
    }
    assert s[|name|..] == rest;
    NoMatchWithoutFirst(rest, name);
  }

  /** `Contains` is false when the first letter of the pattern is absent. */
  lemma NotContained(s: string, pat: string)
    requires |pat| > 0 && pat[0] !in s
    ensures !Contains(s, pat, false)
  {
    NoMatchWithoutFirst(s, pat);
    ContainsIff(s, pat, false);
  }

  /** Flipping swaps `nop` and `jmp` in a well-formed instruction and
      leaves `acc` alone; flipping twice gives the line back. */
  lemma FlipSwaps(sign: char, digits: string)
    requires (sign == '+' || sign == '-') && AllDigits(digits)
    ensures Flip(InstructionText("nop", sign, digits)) == InstructionText("jmp", sign, digits)
    ensures Flip(InstructionText("jmp", sign, digits)) == InstructionText("nop", sign, digits)
    ensures Flip(InstructionText("acc", sign, digits)) == InstructionText("acc", sign, digits)
    ensures Restored(InstructionText("nop", sign, digits)) == InstructionText("nop", sign, digits)
    ensures Restored(InstructionText("jmp", sign, digits)) == InstructionText("jmp", sign, digits)
    ensures Restored(InstructionText("acc", sign, digits)) == InstructionText("acc", sign, digits)
  {
    FlipText(sign, digits, "nop", "jmp");
    FlipText(sign, digits, "jmp", "nop");
    FlipText(sign, digits, "acc", "acc");
  }

  lemma FlipText(sign: char, digits: string, name: string, flipped: string)
    requires (sign == '+' || sign == '-') && AllDigits(digits)
    requires (name, flipped) in {("nop", "jmp"), ("jmp", "nop"), ("acc", "acc")}
    ensures Flip(InstructionText(name, sign, digits)) == InstructionText(flipped, sign, digits)
  {
    var rest := " " + [sign] + digits;
    NoLetters(sign, digits);
    assert InstructionText(name, sign, digits) == name + rest;
    assert InstructionText(flipped, sign, digits) == flipped + rest;
    if name == "nop" {
      FlipNop(rest);
    } else if name == "jmp" {
      FlipJmp(rest);
    } else {
      FlipAcc(rest);
    }
  }

  lemma NoLetters(sign: char, digits: string)
    requires (sign == '+' || sign == '-') && AllDigits(digits)
    ensures 'n' !in " " + [sign] + digits && 'j' !in " " + [sign] + digits
  {
    var rest := " " + [sign] + digits;
    forall i | 0 <= i < |rest| ensures rest[i] != 'n' && rest[i] != 'j' {
      if i >= 2 {
        assert rest[i] == digits[i - 2];
      }
    }
  }

  lemma FlipNop(rest: string)
    requires 'n' !in rest && 'j' !in rest
    ensures Flip("nop" + rest) == "jmp" + rest
  {
    ReplaceFront("nop", rest, "jmp");
    assert MatchesAt("nop" + rest, 0, "nop", false);
    ContainsIff("nop" + rest, "nop", false);
  }

  lemma FlipJmp(rest: string)
    requires 'n' !in rest && 'j' !in rest
    ensures Flip("jmp" + rest) == "nop" + rest
  {
    var jmp := "jmp" + rest;
    ReplaceFront("jmp", rest, "nop");
    assert MatchesAt(jmp, 0, "jmp", false);
    ContainsIff(jmp, "jmp", false);
    assert 'n' !in jmp;
    NotContained(jmp, "nop");
  }

  lemma FlipAcc(rest: string)
    requires 'n' !in rest && 'j' !in rest
    ensures Flip("acc" + rest) == "acc" + rest
  {
    var acc := "acc" + rest;
    assert 'n' !in acc && 'j' !in acc;
    NotContained(acc, "nop");
    NotContained(acc, "jmp");
  }

  /** The line as it is left after a failed attempt: flipped, then flipped
      again. */
  function Restored(line: string): string {
    Flip(Flip(line))
  }

  /** The search skips the lines that parse as `acc`. */
  predicate IsAccLine(line: string) {
    ParseInstruction(line).Ok? && ParseInstruction(line).value.operation == Acc
  }

  /** The program text the attempt at index `j` runs, given the list as it was
      when the search reached index `i`: lines `i..j-1` that are not `acc`
      have been flipped twice, line `j` once. */
  function Attempt(cur: seq<string>, i: nat, j: nat): (r: seq<string>)
    requires i <= j < |cur|
    ensures |r| == |cur| && r[j] == Flip(cur[j])
    decreases j - i
  {
    if i == j then cur[j := Flip(cur[j])]
    else Attempt(Next(cur, i), i + 1, j)
  }

  /** The list after a failed attempt at `i`: the line flipped back, unless
      it was skipped. */
  function Next(cur: seq<string>, i: nat): (r: seq<string>)
    requires i < |cur|
    ensures |r| == |cur| && forall k :: 0 <= k < |cur| && k != i ==> r[k] == cur[k]
  {
    if IsAccLine(cur[i]) then cur else cur[i := Restored(cur[i])]
  }

  /** The attempt at `j` parses, runs, and leaves the program. */
  predicate AttemptEnds(cur: seq<string>, i: nat, j: nat)
    requires i <= j < |cur|
  {
    var p := ParseProgram(Attempt(cur, i, j));
    p.Ok? && Execute(p.value).Ok? && Execute(p.value).value.terminated
  }

  /** No line from `i` on fails to parse, and no attempt fails to parse or to
      run: the search can only end with an answer or by running out of lines. */
  ghost predicate Faultless(cur: seq<string>, i: nat) {
    forall k :: i <= k < |cur| ==>
      && ParseInstruction(cur[k]).Ok?
      && (!IsAccLine(cur[k]) ==> ParseProgram(Attempt(cur, i, k)).Ok? && Execute(ParseProgram(Attempt(cur, i, k)).value).Ok?)
  }

  /** A failed attempt at `i` hands the search on unchanged. */
  lemma NextShift(cur: seq<string>, i: nat)
    requires i < |cur|
    ensures forall k :: i < k < |cur| ==> Attempt(cur, i, k) == Attempt(Next(cur, i), i + 1, k)
    ensures Faultless(cur, i) ==> Faultless(Next(cur, i), i + 1)
  {
  }

  /** `AccumulatorAfterModifiedTermination` from index `i`: skip `acc` lines,
      flip the line, run the whole program, and return the accumulator of the
      first run that terminates; the flip is undone (by flipping again) when
      it does not. Returns the accumulator and the index flipped: the first
      non-`acc` index whose attempt terminates. When nothing fails to parse or
      run, the search fails exactly when no attempt terminates. */
  function Repair(cur: seq<string>, i: nat): (r: Result<(int, nat)>)
    ensures r.Ok? ==> i <= r.value.1 < |cur|
    ensures r.Ok? ==> var (acc, j) := r.value;
      && !IsAccLine(cur[j]) && AttemptEnds(cur, i, j)
      && Execute(ParseProgram(Attempt(cur, i, j)).value).value.accumulator == acc
    ensures r.Ok? ==> forall k :: i <= k < r.value.1 && !IsAccLine(cur[k]) ==> !AttemptEnds(cur, i, k)
    ensures Faultless(cur, i) ==>
              (r.Err? <==> forall k :: i <= k < |cur| && !IsAccLine(cur[k]) ==> !AttemptEnds(cur, i, k))
    decreases |cur| - i
  {
    if i >= |cur| then Err("No termination point found")
    else
      var ins :- ParseInstruction(cur[i]);
      if ins.operation == Acc then
        var rest := Repair(cur, i + 1);
        RepairStepFound(cur, i, rest);
        RepairStepExhausted(cur, i, rest);
        rest
      else
        var flipped := cur[i := Flip(cur[i])];
        var program :- ParseProgram(flipped);
        var o :- Execute(program);
        if o.terminated then Ok((o.accumulator, i))
        else
          var rest := Repair(cur[i := Restored(cur[i])], i + 1);
          RepairStepFound(cur, i, rest);
          RepairStepExhausted(cur, i, rest);
          rest
  }

  /** The search moves on from `i`: an index the rest of the search finds
      from `i + 1` is the one the search finds from `i`, given that the line
      at `i` parses and its attempt, if any, does not terminate. */
  lemma RepairStepFound(cur: seq<string>, i: nat, r: Result<(int, nat)>)
    requires i < |cur| && ParseInstruction(cur[i]).Ok?
    requires !IsAccLine(cur[i]) ==> !AttemptEnds(cur, i, i)
    requires var n := Next(cur, i);
      && (r.Ok? ==> i + 1 <= r.value.1 < |n|)
      && (r.Ok? ==> var (acc, j) := r.value;
            && !IsAccLine(n[j]) && AttemptEnds(n, i + 1, j)
            && Execute(ParseProgram(Attempt(n, i + 1, j)).value).value.accumulator == acc)
      && (r.Ok? ==> forall k :: i + 1 <= k < r.value.1 && !IsAccLine(n[k]) ==> !AttemptEnds(n, i + 1, k))
    ensures r.Ok? ==> i <= r.value.1 < |cur|
    ensures r.Ok? ==> var (acc, j) := r.value;
      && !IsAccLine(cur[j]) && AttemptEnds(cur, i, j)
      && Execute(ParseProgram(Attempt(cur, i, j)).value).value.accumulator == acc
    ensures r.Ok? ==> forall k :: i <= k < r.value.1 && !IsAccLine(cur[k]) ==> !AttemptEnds(cur, i, k)
  {
    NextShift(cur, i);
  }

  /** The search moves on from `i`: when nothing fails, the rest of the
      search fails exactly when no attempt from `i + 1` terminates, and so
      the search from `i` fails exactly when none from `i` does. */
  lemma RepairStepExhausted(cur: seq<string>, i: nat, r: Result<(int, nat)>)
    requires i < |cur| && ParseInstruction(cur[i]).Ok?
    requires !IsAccLine(cur[i]) ==>
      (ParseProgram(Attempt(cur, i, i)).Ok? && Execute(ParseProgram(Attempt(cur, i, i)).value).Ok? && !AttemptEnds(cur, i, i))
    requires var n := Next(cur, i);
      Faultless(n, i + 1) ==>
        (r.Err? <==> forall k :: i + 1 <= k < |n| && !IsAccLine(n[k]) ==> !AttemptEnds(n, i + 1, k))
    ensures Faultless(cur, i) ==>
              (r.Err? <==> forall k :: i <= k < |cur| && !IsAccLine(cur[k]) ==> !AttemptEnds(cur, i, k))
  {
    NextShift(cur, i);
  }

  /** Part 2: the accumulator of the first flipped program that terminates;
      when nothing fails to parse or run, it fails exactly when no flip
      terminates. */
  function Part2(lines: seq<string>): (r: Result<int>)
    ensures r.Ok? ==>
              exists j :: (0 <= j < |lines| && !IsAccLine(lines[j]) && AttemptEnds(lines, 0, j)
                && Execute(ParseProgram(Attempt(lines, 0, j)).value).value.accumulator == r.value
                && forall k :: 0 <= k < j && !IsAccLine(lines[k]) ==> !AttemptEnds(lines, 0, k))
    ensures Faultless(lines, 0) ==>
              (r.Err? <==> forall k :: 0 <= k < |lines| && !IsAccLine(lines[k]) ==> !AttemptEnds(lines, 0, k))
  {
    var (acc, j) :- Repair(lines, 0);
    Ok(acc)
  }
}
