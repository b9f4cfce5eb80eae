/** Day 2, Password Philosophy: each line holds a policy `min-max c` and a
    password. The old policy counts occurrences of `c`; the new one reads the
    two 1-based positions and wants exactly one of them to be `c`. */
module Day2 {
  import opened Wrappers
  import opened Strings
  import Seqs

  datatype Entry = Entry(policy: string, password: string)

  datatype Policy = Policy(first: int, second: int, letter: char)

  /** `Policy = x.Split(':')[0].Trim()`, `Password = x.Split(':')[1].Trim()`. */
  function ParseEntry(line: string): (r: Result<Entry>)
    ensures r.Ok? <==> ':' in line
  {
    var parts := Split(line, ":");
    if |parts| < 2 then
      SplitNoSeparatorIff(line, ':');
      Err("Index was outside the bounds of the array")
    else
      SplitNoSeparatorIff(line, ':');
      Ok(Entry(Trim(parts[0]), Trim(parts[1])))
  }

  /** `ParsePolicy`: `Split('-')`, then the second piece split on a space; both
      numbers go through `int.Parse` and the letter through `char.Parse`,
      which wants a string of exactly one character. */
  function ParsePolicy(text: string): (r: Result<Policy>)
    ensures '-' !in text ==> r.Err?
    ensures r.Ok? ==> -0x8000_0000 <= r.value.first < 0x8000_0000
                      && -0x8000_0000 <= r.value.second < 0x8000_0000
    ensures r.Ok? ==> |Split(text, "-")| >= 2 && ParseInt(Split(text, "-")[0]) == Some(r.value.first)
  {
    var dash := Split(text, "-");
    SplitNoSeparatorIff(text, '-');
    if |dash| < 2 then Err("Index was outside the bounds of the array")
    else
      var temp := Split(dash[1], " ");
      match (ParseInt32(dash[0]), ParseInt32(temp[0]))
      case (Some(first), Some(second)) =>
        if |temp| < 2 then Err("Index was outside the bounds of the array")
        else if |temp[1]| != 1 then Err("String must be exactly one character long")
        else Ok(Policy(first, second, temp[1][0]))
      case _ => Err("Input string was not in a correct format")
  }

  /** The policy as it is written in the puzzle input. */
  function PolicyText(p: Policy): string
    requires p.first >= 0 && p.second >= 0
  {
    NatToString(p.first) + "-" + NatToString(p.second) + " " + [p.letter]
  }

  /** Every policy whose bounds are natural numbers that fit `int`, with a
      letter other than the two delimiters, parses back from its text. */
  lemma ParsePolicyText(p: Policy)
    requires 0 <= p.first <= 0x7FFF_FFFF && 0 <= p.second <= 0x7FFF_FFFF
    requires p.letter != '-' && p.letter != ' '
    ensures ParsePolicy(PolicyText(p)) == Ok(p)
  {
    var a := NatToString(p.first);
    var b := NatToString(p.second);
    var tail := b + " " + [p.letter];
    assert PolicyText(p) == a + "-" + tail;
    DashSplit(a, b, p.letter);
    SpaceSplit(b, p.letter);
    NatRoundTrip(p.first);
    NatRoundTrip(p.second);
  }

  lemma DashSplit(a: string, b: string, letter: char)
    requires AllDigits(a) && AllDigits(b) && letter != '-'
    ensures Split(a + "-" + (b + " " + [letter]), "-") == [a, b + " " + [letter]]
  {
    var tail := b + " " + [letter];
    NoDigitDelimiter(a, '-');
    NoDigitDelimiter(b, '-');
    assert '-' !in tail;
    SplitAtFirst(a, '-', tail);
    SplitNoSeparator(tail, '-');
  }

  lemma SpaceSplit(b: string, letter: char)
    requires AllDigits(b) && letter != ' '
    ensures Split(b + " " + [letter], " ") == [b, [letter]]
  {
    NoDigitDelimiter(b, ' ');
    SplitAtFirst(b, ' ', [letter]);
    SplitNoSeparator([letter], ' ');
  }

  lemma NatRoundTrip(n: nat)
    ensures ParseInt(NatToString(n)) == Some(n)
  {
    ParseIntOfIntToString(n);
  }

  /** Part 1 rule: the number of occurrences of the letter is within bounds. */
  function ValidOld(e: Entry): (r: Result<bool>)
    ensures r.Ok? <==> ParsePolicy(e.policy).Ok?
    ensures r.Ok? ==> (r.value <==> ParsePolicy(e.policy).value.first <= multiset(e.password)[ParsePolicy(e.policy).value.letter] <= ParsePolicy(e.policy).value.second)
  {
    var p :- ParsePolicy(e.policy);
    CountCharMultiplicity(e.password, p.letter);
    var hits := CountChar(e.password, p.letter);
    Ok(hits >= p.first && hits <= p.second)
  }

  /** Part 2 rule: exactly one of the two 1-based positions holds the letter;
      a position outside the password throws. */
  function ValidNew(e: Entry): (r: Result<bool>)
    ensures r.Ok? <==> ParsePolicy(e.policy).Ok?
                       && 1 <= ParsePolicy(e.policy).value.first <= |e.password|
                       && 1 <= ParsePolicy(e.policy).value.second <= |e.password|
    ensures r.Ok? ==> var p := ParsePolicy(e.policy).value;
                      (r.value <==> multiset{e.password[p.first - 1], e.password[p.second - 1]}[p.letter] == 1)
  {
    var p :- ParsePolicy(e.policy);
    if !(1 <= p.first <= |e.password|) || !(1 <= p.second <= |e.password|) then
      Err("Index was outside the bounds of the array")
    else
      var hitA := e.password[p.first - 1] == p.letter;
      var hitB := e.password[p.second - 1] == p.letter;
      ExactlyOne(e.password[p.first - 1], e.password[p.second - 1], p.letter);
      Ok(hitA != hitB)
  }

  /** Of two reads, exactly one is the letter: a read of the same position
      twice never qualifies. */
  lemma ExactlyOne(x: char, y: char, c: char)
    ensures (x == c) != (y == c) <==> multiset{x, y}[c] == 1
  {
  }

  /** `entries.Count(x => rule(x))`: the first entry whose rule throws aborts
      the count. */
  function CountValid(entries: seq<Entry>, newPolicy: bool): (r: Result<nat>)
    ensures r.Ok? <==> AllRulesOk(entries, newPolicy)
    ensures r.Ok? ==> r.value == |Seqs.Where(entries, e => Rule(e, newPolicy) == Ok(true))|
    ensures r.Ok? ==> r.value <= |entries|
  {
    if |entries| == 0 then
      assert Seqs.Where(entries, e => Rule(e, newPolicy) == Ok(true)) == {};
      Ok(0)
    else
      AllRulesOkCons(entries, newPolicy);
      Seqs.WhereCons(entries, (e: Entry) => Rule(e, newPolicy) == Ok(true));
      var ok :- Rule(entries[0], newPolicy);
      var rest :- CountValid(entries[1..], newPolicy);
      Ok((if ok then 1 else 0) + rest)
  }

  /** No entry makes its rule throw. */
  predicate AllRulesOk(entries: seq<Entry>, newPolicy: bool) {
    forall k :: 0 <= k < |entries| ==> Rule(entries[k], newPolicy).Ok?
  }

  lemma AllRulesOkCons(entries: seq<Entry>, newPolicy: bool)
    requires |entries| > 0
    ensures AllRulesOk(entries, newPolicy)
            <==> Rule(entries[0], newPolicy).Ok? && AllRulesOk(entries[1..], newPolicy)
  {
    if Rule(entries[0], newPolicy).Ok? && AllRulesOk(entries[1..], newPolicy) {
      forall k | 0 <= k < |entries| ensures Rule(entries[k], newPolicy).Ok? {
        if k > 0 {
          assert entries[k] == entries[1..][k - 1];
        }
      }
    }
  }

  /** Counting over a concatenation: both halves must count without a throw,
      and the counts add up. */
  lemma {:induction false} CountValidAppend(a: seq<Entry>, b: seq<Entry>, newPolicy: bool)
    ensures CountValid(a + b, newPolicy).Ok? <==> CountValid(a, newPolicy).Ok? && CountValid(b, newPolicy).Ok?
    ensures CountValid(a + b, newPolicy).Ok? ==>
      CountValid(a + b, newPolicy).value == CountValid(a, newPolicy).value + CountValid(b, newPolicy).value
    decreases |a|
  {
    if |a| == 0 {
      assert a + b == b;
    } else {
      assert (a + b)[1..] == a[1..] + b;
      assert (a + b)[0] == a[0];
      CountValidAppend(a[1..], b, newPolicy);
      CountValidCons(a + b, newPolicy);
      CountValidCons(a, newPolicy);
    }
  }

  /** One step of the count: the first entry's rule, then the rest. */
  lemma CountValidCons(entries: seq<Entry>, newPolicy: bool)
    requires |entries| > 0
    ensures CountValid(entries, newPolicy).Ok?
            <==> Rule(entries[0], newPolicy).Ok? && CountValid(entries[1..], newPolicy).Ok?
    ensures CountValid(entries, newPolicy).Ok? ==>
      CountValid(entries, newPolicy).value
      == (if Rule(entries[0], newPolicy).value then 1 else 0) + CountValid(entries[1..], newPolicy).value
  {
  }

  function Rule(e: Entry, newPolicy: bool): Result<bool> {
    if newPolicy then ValidNew(e) else ValidOld(e)
  }
}
