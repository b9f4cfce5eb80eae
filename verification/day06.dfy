/** Day 6, Custom Customs: each group (a paragraph) holds one line of
    answers per person. Part 1 sums the number of distinct answers per group,
    part 2 the number of letters `a`..`z` every person of the group answered. */
module Day6 {
  import opened Strings

  type Group = seq<string>

  /** Every character any person of the group answered. */
  function Answers(group: Group): (r: set<char>)
    ensures forall c :: c in r <==> exists k :: 0 <= k < |group| && c in group[k]
  {
    if |group| == 0 then {}
    else
      var rest := Answers(group[1..]);
      assert forall k :: 1 <= k < |group| ==> group[k] == group[1..][k - 1];
      (set c | c in group[0]) + rest
  }

  /** `Persons.SelectMany(x => x.Answers).Distinct().Count()`. */
  function DistinctAnswers(group: Group): nat {
    |Answers(group)|
  }

  /** `x.Answers.Contains(c, StringComparison.OrdinalIgnoreCase)`. */
  predicate AnsweredIgnoreCase(answers: string, c: char) {
    exists k :: 0 <= k < |answers| && ToUpper(answers[k]) == ToUpper(c)
  }

  predicate Everyone(group: Group, c: char) {
    forall k :: 0 <= k < |group| ==> AnsweredIgnoreCase(group[k], c)
  }

  /** The letters everyone in the group answered. */
  function Common(group: Group): set<char> {
    set c | 'a' <= c <= 'z' && Everyone(group, c)
  }

  /** The letters from `c` to `z` that everyone answered. */
  function Agreed(group: Group, c: char): set<char> {
    set x | c <= x <= 'z' && Everyone(group, x)
  }

  /** The `for (char c = 'a'; c <= 'z'; c++)` loop from `c` on: the number
      of letters from `c` to `z` that everyone answered. */
  function CountFrom(group: Group, c: char): (n: nat)
    requires 'a' <= c <= ('z' as int + 1) as char
    ensures n == |Agreed(group, c)|
    ensures n <= 'z' as int - c as int + 1
    ensures (forall x :: c <= x <= 'z' ==> Everyone(group, x)) ==> n == 'z' as int - c as int + 1
    decreases 'z' as int - c as int
  {
    if c > 'z' then
      AgreedPastZ(group, c);
      0
    else
      var next := ((c as int) + 1) as char;
      AgreedStep(group, c, next);
      var rest := CountFrom(group, next);
      if Everyone(group, c) then 1 + rest else rest
  }

  lemma AgreedPastZ(group: Group, c: char)
    requires c > 'z'
    ensures Agreed(group, c) == {}
  {
  }

  lemma AgreedStep(group: Group, c: char, next: char)
    requires 'a' <= c <= 'z' && next as int == c as int + 1
    ensures Everyone(group, c) ==> Agreed(group, c) == Agreed(group, next) + {c}
    ensures !Everyone(group, c) ==> Agreed(group, c) == Agreed(group, next)
    ensures c !in Agreed(group, next)
    ensures (forall x :: c <= x <= 'z' ==> Everyone(group, x)) ==>
              Everyone(group, c) && (forall x :: next <= x <= 'z' ==> Everyone(group, x))
  {
  }

  /** `QuestionsEveryoneAnsweredYes`: the loop counts exactly the common letters. */
  function QuestionsEveryoneAnswered(group: Group): (n: nat)
    ensures n == |Common(group)|
    ensures n <= 26
  {
    assert Agreed(group, 'a') == Common(group);
    CountFrom(group, 'a')
  }

  /** A group with nobody in it (two blank lines in a row, or a blank last
      line) answers every letter: `All` over no persons is true. */
  lemma EmptyGroupAnswersAll()
    ensures QuestionsEveryoneAnswered([]) == 26
  {
  }

  predicate LowerCase(group: Group) {
    forall k, i :: 0 <= k < |group| && 0 <= i < |group[k]| ==> 'a' <= group[k][i] <= 'z'
  }

  /** For a non-empty group of lower-case answers, what everyone answered is
      among what anyone answered, so part 2 never exceeds part 1. */
  lemma CommonWithinAnswers(group: Group)
    requires |group| > 0 && LowerCase(group)
    ensures Common(group) <= Answers(group)
    ensures QuestionsEveryoneAnswered(group) <= DistinctAnswers(group)
  {
    forall c | c in Common(group) ensures c in Answers(group) {
      FirstPersonAnswered(group, c);
    }
    SubsetSize(Common(group), Answers(group));
  }

  lemma FirstPersonAnswered(group: Group, c: char)
    requires |group| > 0 && LowerCase(group)
    requires 'a' <= c <= 'z' && Everyone(group, c)
    ensures c in group[0]
  {
    assert AnsweredIgnoreCase(group[0], c);
    var i :| 0 <= i < |group[0]| && ToUpper(group[0][i]) == ToUpper(c);
    assert 'a' <= group[0][i] <= 'z';
  }

  lemma SubsetSize<T>(a: set<T>, b: set<T>)
    requires a <= b
    ensures |a| <= |b|
  {
    assert b == a + (b - a);
  }

  function SumDistinct(groups: seq<Group>): nat {
    if |groups| == 0 then 0 else DistinctAnswers(groups[0]) + SumDistinct(groups[1..])
  }

  function SumEveryone(groups: seq<Group>): nat {
    if |groups| == 0 then 0 else QuestionsEveryoneAnswered(groups[0]) + SumEveryone(groups[1..])
  }

  lemma {:induction false} SumDistinctZero(groups: seq<Group>)
    ensures SumDistinct(groups) == 0 <==> forall k :: 0 <= k < |groups| ==> Answers(groups[k]) == {}
  {
    if |groups| > 0 {
      SumDistinctZero(groups[1..]);
      assert forall k :: 1 <= k < |groups| ==> groups[k] == groups[1..][k - 1];
    }
  }

  /** Part 1 answers zero exactly when nobody answered anything: no answer
      line counts unless it holds a character that is not white space. */
  lemma Part1Zero(lines: seq<string>)
    ensures SumDistinct(Paragraphs(lines)) == 0 <==> forall k :: 0 <= k < |lines| ==> IsBlank(lines[k])
  {
    var groups := Paragraphs(lines);
    SumDistinctZero(groups);
    if k :| 0 <= k < |lines| && !IsBlank(lines[k]) {
      var l := lines[k];
      InNonBlank(lines, l);
      ParagraphsPartition(lines);
      InFlatten(groups, l);
      var g :| 0 <= g < |groups| && l in groups[g];
      var i :| 0 <= i < |groups[g]| && groups[g][i] == l;
      assert l[0] in Answers(groups[g]);
    } else {
      BlankLinesEmptyGroups(lines);
    }
  }

  lemma {:induction false} BlankLinesEmptyGroups(lines: seq<string>)
    requires forall k :: 0 <= k < |lines| ==> IsBlank(lines[k])
    ensures forall g :: 0 <= g < |Paragraphs(lines)| ==> Paragraphs(lines)[g] == []
  {
    if |lines| > 0 {
      BlankLinesEmptyGroups(lines[1..]);
    }
  }

  /** Part 1: the distinct answers summed over the groups. */
  function Part1(lines: seq<string>): (r: nat)
    ensures r == 0 <==> forall k :: 0 <= k < |lines| ==> IsBlank(lines[k])
  {
    Part1Zero(lines);
    SumDistinct(Paragraphs(lines))
  }

  /** Part 2: the letters everyone answered, summed over the groups; at most
      26 for each group, and there is one group more than blank lines. */
  function Part2(lines: seq<string>): (r: nat)
    ensures r <= 26 * (CountBlank(lines) + 1)
  {
    ParagraphsPartition(lines);
    Part2Bound(Paragraphs(lines));
    SumEveryone(Paragraphs(lines))
  }

  lemma {:induction false} SumEveryoneAtMostDistinct(groups: seq<Group>)
    requires forall k :: 0 <= k < |groups| ==> |groups[k]| > 0 && LowerCase(groups[k])
    ensures SumEveryone(groups) <= SumDistinct(groups)
  {
    if |groups| > 0 {
      CommonWithinAnswers(groups[0]);
      SumEveryoneAtMostDistinct(groups[1..]);
    }
  }

  /** With lower-case answers and no empty group (no blank line first, last
      or twice in a row), part 2 never exceeds part 1. */
  lemma Part2AtMostPart1(lines: seq<string>)
    requires forall k, i :: 0 <= k < |lines| && !IsBlank(lines[k]) && 0 <= i < |lines[k]| ==> 'a' <= lines[k][i] <= 'z'
    requires forall g :: g in Paragraphs(lines) ==> |g| > 0
    ensures Part2(lines) <= Part1(lines)
  {
    var groups := Paragraphs(lines);
    forall k | 0 <= k < |groups| ensures |groups[k]| > 0 && LowerCase(groups[k]) {
      assert groups[k] in groups;
      forall j, i | 0 <= j < |groups[k]| && 0 <= i < |groups[k][j]| ensures 'a' <= groups[k][j][i] <= 'z' {
        assert groups[k][j] in groups[k];
        var m :| 0 <= m < |lines| && lines[m] == groups[k][j];
      }
    }
    SumEveryoneAtMostDistinct(groups);
  }

  /** Each group answers at most 26 letters in common. */
  lemma {:induction false} Part2Bound(groups: seq<Group>)
    ensures SumEveryone(groups) <= 26 * |groups|
  {
    if |groups| > 0 {
      Part2Bound(groups[1..]);
    }
  }
}
