/** Day 15, Rambunctious Recitation: the elves speak the starting numbers in
    turn; after that, each turn speaks 0 if the previous number had not been
    spoken before its latest turn, and otherwise the gap between its latest
    two turns. `DetermineNumberSpoken` keeps, per number, its latest two
    turns (1-based, 0 for none) in a dictionary.

    The rules are stated independently as `Rules`, the spoken sequence
    built turn by turn from the whole history. The dictionary version agrees
    with it when the starting numbers are distinct (`SpeakFollowsRules`). A
    repeated starting number has its entry reset to `(turn, 0)`, which
    forgets the earlier turn (`RepeatedStartDiverges`). */
module Day15 {
  import opened Wrappers

  // ---------------------------------------------------------------- the rules

  /** The 1-based turn of the last `x` in `s`, or 0 when `x` is absent. */
  function Last(s: seq<int>, x: int): (t: nat)
    ensures t <= |s|
    ensures t > 0 <==> x in s
    ensures t > 0 ==> s[t - 1] == x
    ensures forall k :: t <= k < |s| ==> s[k] != x
  {
    if |s| == 0 then 0
    else if s[|s| - 1] == x then |s|
    else Last(s[..|s| - 1], x)
  }

  /** The number spoken after `s`: 0 when the last number was new, else the
      gap between its last two turns. */
  function Next(s: seq<int>): (n: int)
    requires |s| >= 1
    ensures n >= 0
  {
    var before := Last(s[..|s| - 1], s[|s| - 1]);
    if before == 0 then 0 else |s| - before
  }

  /** The first `n` numbers spoken. */
  function Rules(input: seq<int>, n: nat): (s: seq<int>)
    requires |input| >= 1 || n == 0
    ensures |s| == n
    ensures forall k :: 0 <= k < n && k < |input| ==> s[k] == input[k]
  {
    if n <= |input| then input[..n]
    else
      var s := Rules(input, n - 1);
      s + [Next(s)]
  }

  /** Each turn extends the sequence by one number. */
  lemma RulesStep(input: seq<int>, n: nat)
    requires |input| >= 1
    ensures Rules(input, n + 1) == Rules(input, n) + [if n < |input| then input[n] else Next(Rules(input, n))]
  {
    if n < |input| {
      assert input[..n + 1] == input[..n] + [input[n]];
    }
  }

  /** Past the starting numbers, every number spoken is non-negative. */
  lemma {:induction false} RulesNonNegative(input: seq<int>, n: nat, k: nat)
    requires |input| >= 1 && |input| <= k < n
    ensures Rules(input, n)[k] >= 0
  {
    if k == n - 1 {
    } else {
      RulesNonNegative(input, n - 1, k);
    }
  }

  // ---------------------------------------------------------------- the dictionary

  /** The latest two turns a number was spoken, 0 for none. */
  datatype Turns = Turns(latest: nat, secondLatest: nat)

  /** `DetermineNumberSpoken`'s loop from turn index `i` on: a starting
      number resets its entry to `(i + 1, 0)`; later turns read the previous
      number's entry (missing: the dictionary throws), speak 0 or the gap,
      and shift the spoken number's latest turn into second place. */
  function Speak(input: seq<int>, numbersSpoken: int, i: nat, spoken: int, table: map<int, Turns>): (r: Result<int>)
    ensures i >= numbersSpoken ==> r == Ok(spoken)
    decreases numbersSpoken - i
  {
    if i >= numbersSpoken then Ok(spoken)
    else if i < |input| then
      Speak(input, numbersSpoken, i + 1, input[i], table[input[i] := Turns(i + 1, 0)])
    else if spoken !in table then Err("The given key was not present in the dictionary.")
    else
      var turns := table[spoken];
      var next := if turns.secondLatest == 0 then 0 else turns.latest - turns.secondLatest;
      var entry := if next in table then Turns(i + 1, table[next].latest) else Turns(i + 1, 0);
      Speak(input, numbersSpoken, i + 1, next, table[next := entry])
  }

  /** `DetermineNumberSpoken`: the number spoken on turn `numbersSpoken`.
      It is the starting number of that turn, and past them what the rules
      speak when the starting numbers are distinct; with no starting numbers
      it throws. */
  function DetermineNumberSpoken(input: seq<int>, numbersSpoken: int): (r: Result<int>)
    ensures numbersSpoken <= 0 ==> r == Ok(0)
    ensures 1 <= numbersSpoken <= |input| ==> r == Ok(input[numbersSpoken - 1])
    ensures Distinct(input) && |input| >= 1 && numbersSpoken >= 1 ==> r == Ok(Rules(input, numbersSpoken)[numbersSpoken - 1])
    ensures |input| == 0 && numbersSpoken >= 1 ==> r.Err?
  {
    FromTheStart(input, numbersSpoken);
    Speak(input, numbersSpoken, 0, 0, map[])
  }

  /** The loop started on turn 0 with an empty dictionary. */
  lemma FromTheStart(input: seq<int>, n: int)
    ensures 1 <= n <= |input| ==> Speak(input, n, 0, 0, map[]) == Ok(input[n - 1])
    ensures Distinct(input) && |input| >= 1 && n >= 1 ==> Speak(input, n, 0, 0, map[]) == Ok(Rules(input, n)[n - 1])
  {
    if 1 <= n <= |input| {
      StartingNumbersSpoken(input, n, 0, 0, map[]);
    }
    if Distinct(input) && |input| >= 1 && n >= 1 {
      assert Rules(input, 0) == [];
      SpeakFollowsRules(input, n, 0, 0, map[]);
    }
  }

  /** The table describes the history `s`: its keys are the numbers spoken,
      each with its last turn and the last turn before that. */
  ghost predicate Tracks(table: map<int, Turns>, s: seq<int>) {
    KeysTracked(table, s) && EntriesTracked(table, s)
  }

  ghost predicate KeysTracked(table: map<int, Turns>, s: seq<int>) {
    forall x :: x in table <==> x in s
  }

  predicate EntriesTracked(table: map<int, Turns>, s: seq<int>) {
    forall x :: x in table ==> Entry(table[x], s, x)
  }

  /** `e` holds the last turn of `x` in `s` and the last turn before it. */
  predicate Entry(e: Turns, s: seq<int>, x: int) {
    e.latest == Last(s, x) >= 1 && e.secondLatest == Last(s[..Last(s, x) - 1], x)
  }

  /** Every entry's latest turn is after its second latest. */
  lemma TracksOrdersTurns(table: map<int, Turns>, s: seq<int>, x: int)
    requires Tracks(table, s) && x in table
    ensures table[x].latest > table[x].secondLatest >= 0
  {
  }

  predicate Distinct(input: seq<int>) {
    forall i, j :: 0 <= i < j < |input| ==> input[i] != input[j]
  }

  lemma LastAppend(s: seq<int>, y: int, x: int)
    ensures Last(s + [y], x) == if x == y then |s| + 1 else Last(s, x)
  {
    assert (s + [y])[..|s|] == s;
  }

  /** Appending `y` to a tracked history and updating `y`'s entry the way
      the loop does keeps the table tracking. */
  lemma TrackAppend(table: map<int, Turns>, s: seq<int>, y: int)
    requires Tracks(table, s)
    ensures Tracks(table[y := Turns(|s| + 1, Last(s, y))], s + [y])
  {
    TrackKeys(table, s, y);
    TrackValues(table, s, y);
  }

  lemma TrackKeys(table: map<int, Turns>, s: seq<int>, y: int)
    requires KeysTracked(table, s)
    ensures KeysTracked(table[y := Turns(|s| + 1, Last(s, y))], s + [y])
  {
  }

  lemma TrackValues(table: map<int, Turns>, s: seq<int>, y: int)
    requires Tracks(table, s)
    ensures EntriesTracked(table[y := Turns(|s| + 1, Last(s, y))], s + [y])
  {
    var table' := table[y := Turns(|s| + 1, Last(s, y))];
    forall x | x in table'
      ensures Entry(table'[x], s + [y], x)
    {
      if x == y {
        TrackNewEntry(s, y);
      } else {
        TrackOldEntry(s, y, x, table[x]);
      }
    }
  }

  /** The entry of the number just spoken. */
  lemma TrackNewEntry(s: seq<int>, y: int)
    ensures Entry(Turns(|s| + 1, Last(s, y)), s + [y], y)
  {
    LastAppend(s, y, y);
    assert (s + [y])[..|s|] == s;
  }

  /** Any other entry stays as it was. */
  lemma TrackOldEntry(s: seq<int>, y: int, x: int, e: Turns)
    requires x != y && Entry(e, s, x)
    ensures Entry(e, s + [y], x)
  {
    LastAppend(s, y, x);
    assert (s + [y])[..Last(s, x) - 1] == s[..Last(s, x) - 1];
  }

  /** Past the starting numbers the loop reads the previous number's entry
      and speaks what the rules say. */
  lemma LoopSpeaksNext(table: map<int, Turns>, s: seq<int>, spoken: int)
    requires Tracks(table, s) && |s| >= 1 && spoken == s[|s| - 1]
    ensures spoken in table
    ensures (if table[spoken].secondLatest == 0 then 0 else table[spoken].latest - table[spoken].secondLatest) == Next(s)
  {
    assert spoken in s;
    assert Last(s, spoken) == |s|;
  }

  /** The entry the loop writes for the number it speaks holds that number's
      previous latest turn in second place. */
  lemma LoopEntry(table: map<int, Turns>, s: seq<int>, y: int)
    requires Tracks(table, s)
    ensures (if y in table then Turns(|s| + 1, table[y].latest) else Turns(|s| + 1, 0)) == Turns(|s| + 1, Last(s, y))
  {
  }

  /** One later turn of the loop on a tracked history: it speaks `Next(s)`
      and records it. */
  lemma SpeakStep(input: seq<int>, n: int, spoken: int, table: map<int, Turns>, s: seq<int>)
    requires |input| <= |s| < n && |s| >= 1 && Tracks(table, s) && spoken == s[|s| - 1]
    ensures Speak(input, n, |s|, spoken, table)
      == Speak(input, n, |s| + 1, Next(s), table[Next(s) := Turns(|s| + 1, Last(s, Next(s)))])
  {
    LoopSpeaksNext(table, s, spoken);
    LoopEntry(table, s, Next(s));
  }

  /** Extending the history by the turn's number keeps the updated table
      tracking it. */
  lemma TrackStep(input: seq<int>, i: nat, y: int, table: map<int, Turns>)
    requires |input| >= 1 && Tracks(table, Rules(input, i))
    requires Rules(input, i + 1) == Rules(input, i) + [y]
    ensures Tracks(table[y := Turns(i + 1, Last(Rules(input, i), y))], Rules(input, i + 1))
  {
    TrackAppend(table, Rules(input, i), y);
  }

  /** With distinct starting numbers the dictionary version speaks what the
      rules say, on every turn. */
  lemma {:induction false} SpeakFollowsRules(input: seq<int>, n: nat, i: nat, spoken: int, table: map<int, Turns>)
    requires Distinct(input) && |input| >= 1 && i <= n
    requires Tracks(table, Rules(input, i))
    requires i >= 1 ==> spoken == Rules(input, i)[i - 1]
    ensures n >= 1 ==> Speak(input, n, i, spoken, table) == Ok(Rules(input, n)[n - 1])
    decreases n - i
  {
    if i < n {
      var s := Rules(input, i);
      RulesStep(input, i);
      var y := if i < |input| then input[i] else Next(s);
      if i < |input| {
        assert Last(s, y) == 0 by {
          forall k | 0 <= k < i ensures s[k] != y {
            assert s[k] == input[k];
          }
        }
      } else {
        SpeakStep(input, n, spoken, table, s);
      }
      TrackStep(input, i, y, table);
      SpeakFollowsRules(input, n, i + 1, y, table[y := Turns(i + 1, Last(s, y))]);
    }
  }

  /** The first turns speak the starting numbers, repeated or not. */
  lemma {:induction false} StartingNumbersSpoken(input: seq<int>, n: nat, i: nat, spoken: int, table: map<int, Turns>)
    requires 1 <= n <= |input| && i <= n
    requires i >= 1 ==> spoken == input[i - 1]
    ensures Speak(input, n, i, spoken, table) == Ok(input[n - 1])
    decreases n - i
  {
    if i < n {
      StartingNumbersSpoken(input, n, i + 1, input[i], table[input[i] := Turns(i + 1, 0)]);
    }
  }

  /** With no starting numbers the first later turn looks up 0 in an empty
      dictionary and throws. */
  lemma NoStartingNumbersThrows(n: nat)
    requires n >= 1
    ensures DetermineNumberSpoken([], n).Err?
  {
  }

  /** Starting numbers `1, 1`: the rules speak 1 on turn 3 (the gap between
      turns 1 and 2), while the reset entry `(2, 0)` makes the loop speak 0. */
  lemma RepeatedStartDiverges()
    ensures Rules([1, 1], 3)[2] == 1
    ensures DetermineNumberSpoken([1, 1], 3) == Ok(0)
  {
    assert Rules([1, 1], 2) == [1, 1];
    assert [1, 1][..1] == [1];
    assert Last([1], 1) == 1;
    var t := map[1 := Turns(2, 0)];
    assert map[1 := Turns(1, 0)][1 := Turns(2, 0)] == t;
    assert Speak([1, 1], 3, 2, 1, t) == Speak([1, 1], 3, 3, 0, t[0 := Turns(3, 0)]);
  }

  // ---------------------------------------------------------------- corrected

  /** The loop with a starting number's entry updated like any other:
      its previous latest turn moves into second place. */
  function SpeakCorrected(input: seq<int>, numbersSpoken: int, i: nat, spoken: int, table: map<int, Turns>): (r: Result<int>)
    ensures i >= numbersSpoken ==> r == Ok(spoken)
    decreases numbersSpoken - i
  {
    if i >= numbersSpoken then Ok(spoken)
    else
      var next :=
        if i < |input| then input[i]
        else if spoken !in table then 0
        else if table[spoken].secondLatest == 0 then 0
        else table[spoken].latest - table[spoken].secondLatest;
      if i >= |input| && spoken !in table then Err("The given key was not present in the dictionary.")
      else
        var entry := if next in table then Turns(i + 1, table[next].latest) else Turns(i + 1, 0);
        SpeakCorrected(input, numbersSpoken, i + 1, next, table[next := entry])
  }

  /** One turn of the corrected loop on a tracked history. */
  lemma CorrectedStep(input: seq<int>, n: int, spoken: int, table: map<int, Turns>, s: seq<int>, y: int)
    requires |s| < n && Tracks(table, s)
    requires |s| < |input| ==> y == input[|s|]
    requires |s| >= |input| ==> |s| >= 1 && spoken == s[|s| - 1] && y == Next(s)
    ensures SpeakCorrected(input, n, |s|, spoken, table)
      == SpeakCorrected(input, n, |s| + 1, y, table[y := Turns(|s| + 1, Last(s, y))])
  {
    if |s| >= |input| {
      LoopSpeaksNext(table, s, spoken);
    }
    LoopEntry(table, s, y);
  }

  /** The corrected loop speaks what the rules say for any starting numbers,
      repeated ones included. */
  lemma {:induction false} CorrectedFollowsRules(input: seq<int>, n: nat, i: nat, spoken: int, table: map<int, Turns>)
    requires |input| >= 1 && i <= n
    requires Tracks(table, Rules(input, i))
    requires i >= 1 ==> spoken == Rules(input, i)[i - 1]
    ensures n >= 1 ==> SpeakCorrected(input, n, i, spoken, table) == Ok(Rules(input, n)[n - 1])
    decreases n - i
  {
    if i < n {
      var s := Rules(input, i);
      RulesStep(input, i);
      var y := if i < |input| then input[i] else Next(s);
      CorrectedStep(input, n, spoken, table, s, y);
      TrackStep(input, i, y, table);
      CorrectedFollowsRules(input, n, i + 1, y, table[y := Turns(i + 1, Last(s, y))]);
    }
  }

  /** The corrected `DetermineNumberSpoken`: the number the rules speak on
      turn `numbersSpoken`, for any non-empty starting numbers. */
  function DetermineCorrected(input: seq<int>, numbersSpoken: int): (r: Result<int>)
    ensures numbersSpoken <= 0 ==> r == Ok(0)
    ensures |input| >= 1 && numbersSpoken >= 1 ==> r == Ok(Rules(input, numbersSpoken)[numbersSpoken - 1])
  {
    CorrectedFromTheStart(input, numbersSpoken);
    SpeakCorrected(input, numbersSpoken, 0, 0, map[])
  }

  lemma CorrectedFromTheStart(input: seq<int>, n: int)
    ensures |input| >= 1 && n >= 1 ==> SpeakCorrected(input, n, 0, 0, map[]) == Ok(Rules(input, n)[n - 1])
  {
    if |input| >= 1 && n >= 1 {
      assert Rules(input, 0) == [];
      CorrectedFollowsRules(input, n, 0, 0, map[]);
    }
  }

  /** On the starting numbers `1, 1` the corrected loop speaks 1 on turn 3. */
  lemma CorrectedRepeatedStart()
    ensures SpeakCorrected([1, 1], 3, 0, 0, map[]) == Ok(1)
  {
    assert Rules([1, 1], 0) == [];
    CorrectedFollowsRules([1, 1], 3, 0, 0, map[]);
    RepeatedStartDiverges();
  }
}
