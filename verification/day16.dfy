/** Day 16, Ticket Translation: rules are named sets of inclusive ranges; a
    nearby ticket value no rule accepts is invalid (part 1). The valid
    tickets are then used to decide which column each rule describes (part
    2): every rule first collects, as candidates, the columns whose values it
    accepts on every ticket, and then rules with exactly one candidate left
    unused are fixed, again and again, until a pass fixes nothing. */
module Day16 {
  import opened Wrappers
  import opened Strings
  import Seqs

  datatype Range = Range(min: int, max: int)

  datatype Rule = Rule(name: string, ranges: seq<Range>)

  predicate InRange(range: Range, v: int) {
    range.min <= v <= range.max
  }

  function Names(rules: seq<Rule>): (r: seq<string>)
    ensures |r| == |rules| && forall k :: 0 <= k < |rules| ==> r[k] == rules[k].name
  {
    seq(|rules|, k requires 0 <= k < |rules| => rules[k].name)
  }

  /** The rules live in a dictionary keyed by name. */
  predicate UniqueNames(rules: seq<Rule>) {
    Seqs.NoDup(Names(rules))
  }

  // ---------------------------------------------------------------- validation

  /** `Rule.ValidValue`: the first range holds `v`, or a later one does. */
  function RuleValidValue(ranges: seq<Range>, v: int): bool {
    |ranges| > 0 && (InRange(ranges[0], v) || RuleValidValue(ranges[1..], v))
  }

  /** A rule accepts exactly the values inside one of its ranges, bounds
      included. */
  lemma {:induction false} RuleValidValueIff(ranges: seq<Range>, v: int)
    ensures RuleValidValue(ranges, v) <==> exists k :: 0 <= k < |ranges| && InRange(ranges[k], v)
  {
    if |ranges| > 0 {
      RuleValidValueIff(ranges[1..], v);
      if exists k :: 1 <= k < |ranges| && InRange(ranges[k], v) {
        var k :| 1 <= k < |ranges| && InRange(ranges[k], v);
        assert InRange(ranges[1..][k - 1], v);
      }
      if RuleValidValue(ranges[1..], v) {
        var k :| 0 <= k < |ranges| - 1 && InRange(ranges[1..][k], v);
        assert InRange(ranges[k + 1], v);
      }
    }
  }

  /** `TicketValidator.ValidValue`: the first rule accepts `v`, or a later
      one does. */
  function ValidValue(rules: seq<Rule>, v: int): bool {
    |rules| > 0 && (RuleValidValue(rules[0].ranges, v) || ValidValue(rules[1..], v))
  }

  /** A value is valid exactly when some rule accepts it. */
  lemma {:induction false} ValidValueIff(rules: seq<Rule>, v: int)
    ensures ValidValue(rules, v) <==> exists k :: 0 <= k < |rules| && RuleValidValue(rules[k].ranges, v)
  {
    if |rules| > 0 {
      ValidValueIff(rules[1..], v);
      if exists k :: 1 <= k < |rules| && RuleValidValue(rules[k].ranges, v) {
        var k :| 1 <= k < |rules| && RuleValidValue(rules[k].ranges, v);
        assert rules[1..][k - 1] == rules[k];
      }
      if ValidValue(rules[1..], v) {
        var k :| 0 <= k < |rules| - 1 && RuleValidValue(rules[1..][k].ranges, v);
        assert rules[k + 1] == rules[1..][k];
      }
    }
  }

  /** `Ticket.GetInvalidValues`: the values no rule accepts, each as often as
      it occurs on the ticket. */
  function GetInvalidValues(values: seq<int>, rules: seq<Rule>): (r: seq<int>)
    ensures |r| <= |values|
    ensures forall k :: 0 <= k < |r| ==> !ValidValue(rules, r[k])
  {
    if |values| == 0 then []
    else (if ValidValue(rules, values[0]) then [] else [values[0]]) + GetInvalidValues(values[1..], rules)
  }

  /** Every invalid value is kept as often as it occurs, and no valid one. */
  lemma {:induction false} InvalidValuesCounted(values: seq<int>, rules: seq<Rule>, v: int)
    ensures multiset(GetInvalidValues(values, rules))[v] == if ValidValue(rules, v) then 0 else multiset(values)[v]
  {
    if |values| > 0 {
      InvalidValuesCounted(values[1..], rules, v);
      assert values == [values[0]] + values[1..];
    }
  }

  /** The invalid values of a concatenation keep the order of the parts. */
  lemma {:induction false} InvalidValuesAppend(a: seq<int>, b: seq<int>, rules: seq<Rule>)
    ensures GetInvalidValues(a + b, rules) == GetInvalidValues(a, rules) + GetInvalidValues(b, rules)
  {
    if |a| == 0 {
      assert a + b == b;
    } else {
      assert (a + b)[1..] == a[1..] + b;
      InvalidValuesAppend(a[1..], b, rules);
    }
  }

  /** A ticket whose every value some rule accepts has no invalid values. */
  lemma NoInvalidValuesIff(values: seq<int>, rules: seq<Rule>)
    ensures GetInvalidValues(values, rules) == [] <==> forall k :: 0 <= k < |values| ==> ValidValue(rules, values[k])
  {
    var r := GetInvalidValues(values, rules);
    if r == [] {
      forall k | 0 <= k < |values|
        ensures ValidValue(rules, values[k])
      {
        InvalidValuesCounted(values, rules, values[k]);
        assert values[k] in multiset(values);
      }
    } else {
      InvalidValuesCounted(values, rules, r[0]);
      assert r[0] in multiset(r);
    }
  }

  /** The rule accepts every one of `values`. */
  predicate AcceptsAll(rule: Rule, values: seq<int>) {
    forall j :: 0 <= j < |values| ==> RuleValidValue(rule.ranges, values[j])
  }

  /** `FindValidRuleForValues`: the names of the rules, in dictionary order,
      that accept every value. */
  function FindValidRuleForValues(rules: seq<Rule>, values: seq<int>): (r: seq<string>)
    ensures |r| <= |rules|
    ensures forall name :: name in r <==> exists k :: 0 <= k < |rules| && rules[k].name == name && AcceptsAll(rules[k], values)
    ensures UniqueNames(rules) ==> Seqs.NoDup(r)
  {
    if |rules| == 0 then []
    else
      var rest := FindValidRuleForValues(rules[1..], values);
      assert forall name :: name in rest <==> exists k :: 1 <= k < |rules| && rules[k].name == name && AcceptsAll(rules[k], values) by {
        forall name
          ensures name in rest <==> exists k :: 1 <= k < |rules| && rules[k].name == name && AcceptsAll(rules[k], values)
        {
          if name in rest {
            var k :| 0 <= k < |rules| - 1 && rules[1..][k].name == name && AcceptsAll(rules[1..][k], values);
            assert rules[k + 1] == rules[1..][k];
          }
          if exists k :: 1 <= k < |rules| && rules[k].name == name && AcceptsAll(rules[k], values) {
            var k :| 1 <= k < |rules| && rules[k].name == name && AcceptsAll(rules[k], values);
            assert rules[1..][k - 1] == rules[k];
          }
        }
      }
      assert UniqueNames(rules) ==> UniqueNames(rules[1..]) && rules[0].name !in rest by {
       if UniqueNames(rules) {
        assert UniqueNames(rules[1..]) by {
          forall i, j | 0 <= i < j < |rules| - 1
            ensures Names(rules[1..])[i] != Names(rules[1..])[j]
          {
            assert Names(rules)[i + 1] != Names(rules)[j + 1];
          }
        }
        forall k | 1 <= k < |rules|
          ensures rules[k].name != rules[0].name
        {
          assert Names(rules)[0] != Names(rules)[k];
        }
       }
      }
      if AcceptsAll(rules[0], values) then [rules[0].name] + rest else rest
  }

  // ---------------------------------------------------------------- parsing

  const FormatError := "Input string was not in a correct format."
  const IndexError := "Index was outside the bounds of the array."
  const DuplicateKey := "An item with the same key has already been added."

  /** `int.Parse` on a trimmed piece. */
  function ParseValue(s: string): (r: Result<int>)
    ensures r.Ok? <==> ParseInt32(s).Some?
    ensures r.Ok? ==> r.value == ParseInt32(s).value
  {
    match ParseInt32(s)
    case Some(v) => Ok(v)
    case None => Err(FormatError)
  }

  /** One range `a-b`: split at `-`, both ends trimmed and parsed; pieces
      after the second are ignored and fewer than two throw. */
  function ParseRange(raw: string): (r: Result<Range>)
  {
    var values := Split(raw, "-");
    if |values| < 2 then Err(IndexError)
    else
      var min :- ParseValue(Trim(values[0]));
      var max :- ParseValue(Trim(values[1]));
      Ok(Range(min, max))
  }

  /** One rule line `name: a-b or c-d`: the name is the trimmed text before
      the first `:`, the ranges are the text after it split at `or`. A line
      without `:` throws. */
  function ParseRule(raw: string): (r: Result<Rule>)
    ensures r.Ok? ==> |r.value.ranges| >= 1
  {
    var split := Split(raw, ":");
    if |split| < 2 then Err(IndexError)
    else
      var ranges :- MapAll(ParseRange, Split(split[1], "or"));
      Ok(Rule(Trim(split[0]), ranges))
  }

  /** Splitting at a pattern whose first character does not occur before it
      cuts there. */
  lemma SplitAtPattern(a: string, sep: string, b: string)
    requires |sep| > 0 && sep[0] !in a
    ensures Split(a + sep + b, sep) == [a] + Split(b, sep)
  {
    var s := a + sep + b;
    forall j: nat | j < |a|
      ensures !MatchesAt(s, j, sep, false)
    {
      assert s[j + 0] == a[j];
    }
    assert MatchesAt(s, |a|, sep, false) by {
      forall k | 0 <= k < |sep|
        ensures s[|a| + k] == sep[k]
      {
      }
    }
    assert IndexOf(s, sep) == Some(|a|);
    assert s[..|a|] == a && s[|a| + |sep|..] == b;
  }

  lemma SplitColon(name: string, rest: string)
    requires ':' !in name && ':' !in rest
    ensures Split(name + ":" + rest, ":") == [name, rest]
  {
    assert ":" == [':'];
    SplitAtFirst(name, ':', rest);
    SplitNoSeparator(rest, ':');
  }

  lemma SplitOr(first: string, second: string)
    requires 'o' !in first && 'o' !in second
    ensures Split(first + "or" + second, "or") == [first, second]
  {
    assert "or"[0] == 'o';
    SplitAtPattern(first, "or", second);
    forall j: nat
      ensures !MatchesAt(second, j, "or", false)
    {
      if j + 2 <= |second| {
        assert second[j + 0] != "or"[0];
      }
    }
  }

  lemma MapAllPair<T, U>(f: T -> Result<U>, a: T, b: T)
    requires f(a).Ok? && f(b).Ok?
    ensures MapAll(f, [a, b]) == Ok([f(a).value, f(b).value])
  {
    var xs := [a, b];
    assert xs[0] == a && xs[1] == b;
    var r := MapAll(f, xs);
    assert r.Ok?;
    assert f(xs[0]) == Ok(r.value[0]) && f(xs[1]) == Ok(r.value[1]);
    assert r.value == [f(a).value, f(b).value];
  }

  /** A rule line of the usual shape: a name, a colon, and two ranges joined
      by `or`, none of which contain the separators, parses to the trimmed
      name and the two ranges in order. */
  lemma ParseRuleShape(name: string, first: string, second: string)
    requires ':' !in name && ':' !in first && ':' !in second
    requires 'o' !in first && 'o' !in second
    requires ParseRange(first).Ok? && ParseRange(second).Ok?
    ensures ParseRule(name + ":" + first + "or" + second)
         == Ok(Rule(Trim(name), [ParseRange(first).value, ParseRange(second).value]))
  {
    var rest := first + "or" + second;
    var raw := name + ":" + first + "or" + second;
    RuleSplit(name, first, second);
    SplitOr(first, second);
    MapAllPair(ParseRange, first, second);
    ParseRuleOf(raw, name, rest, [ParseRange(first).value, ParseRange(second).value]);
  }

  /** The colon splits a rule line into its name and its ranges. */
  lemma RuleSplit(name: string, first: string, second: string)
    requires ':' !in name && ':' !in first && ':' !in second
    ensures Split(name + ":" + first + "or" + second, ":") == [name, first + "or" + second]
  {
    var rest := first + "or" + second;
    assert name + ":" + first + "or" + second == name + ":" + rest;
    assert forall i :: 0 <= i < |rest| ==> rest[i] != ':' by {
      forall i | 0 <= i < |rest| ensures rest[i] != ':' {
        if i < |first| {
          assert rest[i] == first[i];
        } else if i >= |first| + 2 {
          assert rest[i] == second[i - |first| - 2];
        }
      }
    }
    SplitColon(name, rest);
  }

  lemma ParseRuleOf(raw: string, name: string, rest: string, ranges: seq<Range>)
    requires Split(raw, ":") == [name, rest]
    requires MapAll(ParseRange, Split(rest, "or")) == Ok(ranges)
    ensures ParseRule(raw) == Ok(Rule(Trim(name), ranges))
  {
  }

  /** `TicketValidator`'s constructor: the rule lines parsed in order (by
      `parse`, `ParseRule` in the program) into a dictionary, after the
      rules already in `acc`; a repeated name throws. */
  function AddRules(parse: string -> Result<Rule>, raw: seq<string>, acc: seq<Rule>): (r: Result<seq<Rule>>)
    requires UniqueNames(acc)
    ensures r.Ok? ==> UniqueNames(r.value)
    ensures r.Ok? ==> |r.value| == |acc| + |raw| && r.value[..|acc|] == acc
    ensures r.Ok? ==> forall k :: 0 <= k < |raw| ==> parse(raw[k]) == Ok(r.value[|acc| + k])
    decreases |raw|
  {
    if |raw| == 0 then Ok(acc)
    else
      match parse(raw[0])
      case Err(e) => Err(e)
      case Ok(rule) =>
        if rule.name in Names(acc) then Err(DuplicateKey)
        else
          AppendUnique(acc, rule);
          var r := AddRules(parse, raw[1..], acc + [rule]);
          if r.Err? then r
          else
            AddRulesStep(parse, raw, acc, rule, r.value);
            r
  }

  lemma AppendUnique(acc: seq<Rule>, rule: Rule)
    requires UniqueNames(acc) && rule.name !in Names(acc)
    ensures UniqueNames(acc + [rule])
  {
    assert Names(acc + [rule]) == Names(acc) + [rule.name];
  }

  lemma AddRulesStep(parse: string -> Result<Rule>, raw: seq<string>, acc: seq<Rule>, rule: Rule, rules: seq<Rule>)
    requires |raw| > 0 && parse(raw[0]) == Ok(rule)
    requires |rules| == |acc| + |raw| && rules[..|acc| + 1] == acc + [rule]
    requires forall k :: 0 <= k < |raw| - 1 ==> parse(raw[1..][k]) == Ok(rules[|acc| + 1 + k])
    ensures rules[..|acc|] == acc
    ensures forall k :: 0 <= k < |raw| ==> parse(raw[k]) == Ok(rules[|acc| + k])
  {
    assert rules[..|acc|] == rules[..|acc| + 1][..|acc|];
    assert rules[|acc|] == rules[..|acc| + 1][|acc|];
    forall k | 1 <= k < |raw|
      ensures parse(raw[k]) == Ok(rules[|acc| + k])
    {
      assert raw[k] == raw[1..][k - 1];
    }
  }

  /** A ticket line: comma-separated integers. */
  function ParseTicket(raw: string): (r: Result<seq<int>>)
    ensures r.Ok? <==> forall k :: 0 <= k < |Split(raw, ",")| ==> ParseInt32(Split(raw, ",")[k]).Some?
    ensures r.Ok? ==> |r.value| == |Split(raw, ",")|
    ensures r.Ok? ==> forall k :: 0 <= k < |r.value| ==> ParseInt32(Split(raw, ",")[k]) == Some(r.value[k])
  {
    var pieces := Split(raw, ",");
    assert forall k :: 0 <= k < |pieces| ==> (ParseValue(pieces[k]).Ok? <==> ParseInt32(pieces[k]).Some?);
    var r := MapAll(ParseValue, pieces);
    assert r.Ok? ==> forall k :: 0 <= k < |r.value| ==> ParseInt32(pieces[k]) == Some(r.value[k]) by {
      if r.Ok? {
        forall k | 0 <= k < |r.value|
          ensures ParseInt32(pieces[k]) == Some(r.value[k])
        {
          assert ParseValue(pieces[k]) == Ok(r.value[k]);
        }
      }
    }
    r
  }


  // ---------------------------------------------------------------- sections

  /** Where `SplitRulesAndTickets` is: the two flags `isRule` and
      `isYourTicket` only ever take three combinations. */
  datatype Section = RulesSection | YourTicketSection | NearbySection

  datatype Sections = Sections(rules: seq<string>, yourTicket: string, tickets: seq<string>, at: Section)

  const Start := Sections([], "", [], RulesSection)

  /** One line: a blank line moves on to the next section (nothing after
      the nearby tickets); other lines are rules, the own ticket (the header
      skipped, a later line replacing an earlier one), or nearby tickets
      (the header skipped). */
  function SplitStep(s: Sections, line: string): Sections {
    if IsBlank(line) then
      match s.at
      case RulesSection => s.(at := YourTicketSection)
      case YourTicketSection => s.(at := NearbySection)
      case NearbySection => s
    else
      match s.at
      case RulesSection => s.(rules := s.rules + [line])
      case YourTicketSection => if Contains(line, "your ticket", false) then s else s.(yourTicket := line)
      case NearbySection => if Contains(line, "nearby tickets", false) then s else s.(tickets := s.tickets + [line])
  }

  function Run(s: Sections, lines: seq<string>): (r: Sections)
    ensures forall l :: l in r.rules ==> l in s.rules || (l in lines && !IsBlank(l))
    ensures forall l :: l in r.tickets ==> l in s.tickets || (l in lines && !IsBlank(l))
    decreases |lines|
  {
    if |lines| == 0 then s else Run(SplitStep(s, lines[0]), lines[1..])
  }

  /** `SplitRulesAndTickets`. */
  function SplitRulesAndTickets(lines: seq<string>): (r: Sections)
    ensures forall l :: l in r.rules ==> l in lines && !IsBlank(l)
    ensures forall l :: l in r.tickets ==> l in lines && !IsBlank(l)
  {
    Run(Start, lines)
  }

  lemma {:induction false} RunAppend(s: Sections, a: seq<string>, b: seq<string>)
    ensures Run(s, a + b) == Run(Run(s, a), b)
    decreases |a|
  {
    if |a| > 0 {
      assert (a + b)[0] == a[0] && (a + b)[1..] == a[1..] + b;
      RunAppend(SplitStep(s, a[0]), a[1..], b);
    } else {
      assert a + b == b;
    }
  }

  predicate NoBlank(lines: seq<string>) {
    forall k :: 0 <= k < |lines| ==> !IsBlank(lines[k])
  }

  /** The last line that is not the `your ticket:` header, or `y`. */
  function LastTicketLine(y: string, lines: seq<string>): string
    decreases |lines|
  {
    if |lines| == 0 then y
    else LastTicketLine(if Contains(lines[0], "your ticket", false) then y else lines[0], lines[1..])
  }

  /** The line itself, unless it is the `nearby tickets:` header. */
  function Header(line: string): seq<string> {
    if Contains(line, "nearby tickets", false) then [] else [line]
  }

  /** The lines that are not the `nearby tickets:` header. */
  function WithoutHeader(lines: seq<string>): (r: seq<string>)
    ensures |r| <= |lines|
  {
    if |lines| == 0 then []
    else Header(lines[0]) + WithoutHeader(lines[1..])
  }

  lemma NoBlankTail(lines: seq<string>)
    requires |lines| > 0 && NoBlank(lines)
    ensures !IsBlank(lines[0]) && NoBlank(lines[1..])
  {
    assert forall k :: 0 <= k < |lines| - 1 ==> lines[1..][k] == lines[k + 1];
  }

  lemma RunCons(s: Sections, lines: seq<string>)
    requires |lines| > 0
    ensures Run(s, lines) == Run(SplitStep(s, lines[0]), lines[1..])
  {
  }

  lemma {:induction false} RunRules(s: Sections, lines: seq<string>)
    requires s.at == RulesSection && NoBlank(lines)
    ensures Run(s, lines) == s.(rules := s.rules + lines)
    decreases |lines|
  {
    if |lines| > 0 {
      NoBlankTail(lines);
      RunCons(s, lines);
      RulesStep(s, lines[0]);
      RunRules(SplitStep(s, lines[0]), lines[1..]);
      ConsAssoc(s.rules, lines);
    }
  }

  lemma RulesStep(s: Sections, line: string)
    requires s.at == RulesSection && !IsBlank(line)
    ensures SplitStep(s, line) == s.(rules := s.rules + [line])
  {
  }

  lemma ConsAssoc(a: seq<string>, lines: seq<string>)
    requires |lines| > 0
    ensures a + [lines[0]] + lines[1..] == a + lines
  {
    assert lines == [lines[0]] + lines[1..];
  }

  lemma {:induction false} RunYourTicket(s: Sections, lines: seq<string>)
    requires s.at == YourTicketSection && NoBlank(lines)
    ensures Run(s, lines) == s.(yourTicket := LastTicketLine(s.yourTicket, lines))
    decreases |lines|
  {
    if |lines| > 0 {
      NoBlankTail(lines);
      RunCons(s, lines);
      RunYourTicket(SplitStep(s, lines[0]), lines[1..]);
    }
  }

  lemma {:induction false} RunNearby(s: Sections, lines: seq<string>)
    requires s.at == NearbySection && NoBlank(lines)
    ensures Run(s, lines) == s.(tickets := s.tickets + WithoutHeader(lines))
    decreases |lines|
  {
    if |lines| > 0 {
      NoBlankTail(lines);
      RunCons(s, lines);
      NearbyStep(s, lines[0]);
      RunNearby(SplitStep(s, lines[0]), lines[1..]);
      WithoutHeaderCons(s.tickets, lines);
    }
  }

  lemma NearbyStep(s: Sections, line: string)
    requires s.at == NearbySection && !IsBlank(line)
    ensures SplitStep(s, line) == s.(tickets := s.tickets + Header(line))
  {
  }

  lemma WithoutHeaderCons(a: seq<string>, lines: seq<string>)
    requires |lines| > 0
    ensures a + Header(lines[0]) + WithoutHeader(lines[1..]) == a + WithoutHeader(lines)
  {
    var h, w := Header(lines[0]), WithoutHeader(lines[1..]);
    assert WithoutHeader(lines) == h + w;
    AppendAssoc(a, h, w);
  }

  lemma AppendAssoc(a: seq<string>, b: seq<string>, c: seq<string>)
    ensures a + b + c == a + (b + c)
  {
  }

  /** An input of three blocks separated by blank lines: the rules are the
      first block, the own ticket is the last non-header line of the second,
      and the nearby tickets are the third block without its header. */
  lemma SectionsOfInput(rules: seq<string>, blank1: string, mine: seq<string>, blank2: string, nearby: seq<string>)
    requires NoBlank(rules) && NoBlank(mine) && NoBlank(nearby) && IsBlank(blank1) && IsBlank(blank2)
    ensures SplitRulesAndTickets(rules + [blank1] + mine + [blank2] + nearby)
         == Sections(rules, LastTicketLine("", mine), WithoutHeader(nearby), NearbySection)
  {
    RunAppend(Start, rules + [blank1] + mine + [blank2], nearby);
    RunAppend(Start, rules + [blank1] + mine, [blank2]);
    RunAppend(Start, rules + [blank1], mine);
    RunAppend(Start, rules, [blank1]);
    RunRules(Start, rules);
    assert [] + rules == rules;
    var s1 := Run(Start, rules + [blank1]);
    assert s1 == Sections(rules, "", [], YourTicketSection);
    RunYourTicket(s1, mine);
    var s2 := Run(Start, rules + [blank1] + mine + [blank2]);
    assert s2 == Sections(rules, LastTicketLine("", mine), [], NearbySection);
    RunNearby(s2, nearby);
    assert [] + WithoutHeader(nearby) == WithoutHeader(nearby);
  }

  /** `ParseInput`: nearby tickets, own ticket and rules, parsed in that
      order. */
  datatype Notes = Notes(tickets: seq<seq<int>>, yourTicket: seq<int>, rules: seq<Rule>)

  function ParseInput(lines: seq<string>): (r: Result<Notes>)
    ensures r.Ok? ==> UniqueNames(r.value.rules)
    ensures r.Ok? ==> ParsedFrom(SplitRulesAndTickets(lines), r.value)
    ensures ParseTicket(SplitRulesAndTickets(lines).yourTicket).Err? ==> r.Err?
    ensures (exists k :: 0 <= k < |SplitRulesAndTickets(lines).tickets|
               && ParseTicket(SplitRulesAndTickets(lines).tickets[k]).Err?) ==> r.Err?
    ensures (exists k :: 0 <= k < |SplitRulesAndTickets(lines).rules|
               && ParseRule(SplitRulesAndTickets(lines).rules[k]).Err?) ==> r.Err?
  {
    var sections := SplitRulesAndTickets(lines);
    var tickets :- MapAll(ParseTicket, sections.tickets);
    var yourTicket :- ParseTicket(sections.yourTicket);
    var rules :- AddRules(ParseRule, sections.rules, []);
    Ok(Notes(tickets, yourTicket, rules))
  }

  /** Every nearby ticket, the own ticket and every rule of `notes` is the
      corresponding line of `s` parsed, one for one and in order. */
  predicate ParsedFrom(s: Sections, notes: Notes) {
    && |notes.tickets| == |s.tickets|
    && (forall k :: 0 <= k < |s.tickets| ==> ParseTicket(s.tickets[k]) == Ok(notes.tickets[k]))
    && ParseTicket(s.yourTicket) == Ok(notes.yourTicket)
    && |notes.rules| == |s.rules|
    && (forall k :: 0 <= k < |s.rules| ==> ParseRule(s.rules[k]) == Ok(notes.rules[k]))
  }

  /** For an input of three blank-separated blocks, the notes are the first
      block's rules, the last ticket line of the second block and the third
      block's tickets, each parsed. */
  lemma ParseInputOfBlocks(rules: seq<string>, blank1: string, mine: seq<string>, blank2: string, nearby: seq<string>)
    requires NoBlank(rules) && NoBlank(mine) && NoBlank(nearby) && IsBlank(blank1) && IsBlank(blank2)
    ensures var r := ParseInput(rules + [blank1] + mine + [blank2] + nearby);
      r.Ok? ==> ParsedFrom(Sections(rules, LastTicketLine("", mine), WithoutHeader(nearby), NearbySection), r.value)
  {
    SectionsOfInput(rules, blank1, mine, blank2, nearby);
  }

  // ---------------------------------------------------------------- part 1

  function AllInvalidValues(tickets: seq<seq<int>>, rules: seq<Rule>): (r: seq<int>)
    ensures forall k :: 0 <= k < |r| ==> !ValidValue(rules, r[k])
  {
    if |tickets| == 0 then [] else GetInvalidValues(tickets[0], rules) + AllInvalidValues(tickets[1..], rules)
  }

  /** Every invalid value of every ticket is collected, as often as it
      occurs, and no valid one. */
  lemma {:induction false} AllInvalidCounted(tickets: seq<seq<int>>, rules: seq<Rule>, v: int)
    ensures multiset(AllInvalidValues(tickets, rules))[v] == if ValidValue(rules, v) then 0 else multiset(Flatten(tickets))[v]
  {
    if |tickets| > 0 {
      AllInvalidCounted(tickets[1..], rules, v);
      InvalidValuesCounted(tickets[0], rules, v);
    }
  }

  /** The ticket scanning error rate: the sum of every invalid value. */
  function Part1(lines: seq<string>): (r: Result<int>)
    ensures r.Ok? <==> ParseInput(lines).Ok?
    ensures r.Ok? ==> r.value == Seqs.Sum(AllInvalidValues(ParseInput(lines).value.tickets, ParseInput(lines).value.rules))
  {
    var notes :- ParseInput(lines);
    Ok(Seqs.Sum(AllInvalidValues(notes.tickets, notes.rules)))
  }

  // ---------------------------------------------------------------- the rule mapping

  /** The values in column `i` of every ticket. */
  function Column(tickets: seq<seq<int>>, i: nat): (c: seq<int>)
    requires forall t :: 0 <= t < |tickets| ==> i < |tickets[t]|
    ensures |c| == |tickets| && forall t :: 0 <= t < |tickets| ==> c[t] == tickets[t][i]
  {
    seq(|tickets|, t requires 0 <= t < |tickets| => tickets[t][i])
  }

  predicate Rectangular(tickets: seq<seq<int>>, n: nat) {
    forall t :: 0 <= t < |tickets| ==> n <= |tickets[t]|
  }

  /** The rule named `name` accepts every value in column `i`. */
  predicate Fits(rules: seq<Rule>, tickets: seq<seq<int>>, name: string, i: nat)
    requires Rectangular(tickets, i + 1)
  {
    exists k :: 0 <= k < |rules| && rules[k].name == name && AcceptsAll(rules[k], Column(tickets, i))
  }

  /** The intermediate dictionary from rule name to candidate columns, with
      its keys in insertion order. */
  datatype Candidates = Candidates(order: seq<string>, columns: map<string, seq<int>>)

  ghost predicate WellKeyed(c: Candidates) {
    Seqs.NoDup(c.order) && forall name :: name in c.columns <==> name in c.order
  }

  function CandidatesOf(c: Candidates, name: string): seq<int> {
    if name in c.columns then c.columns[name] else []
  }

  predicate Increasing(s: seq<int>) {
    forall i, j :: 0 <= i < j < |s| ==> s[i] < s[j]
  }

  /** Add column `i` under `name`, creating the entry when it is missing. */
  function AddCandidate(c: Candidates, name: string, i: int): (r: Candidates)
    requires WellKeyed(c)
    ensures WellKeyed(r)
    ensures CandidatesOf(r, name) == CandidatesOf(c, name) + [i]
    ensures forall other :: other != name ==> CandidatesOf(r, other) == CandidatesOf(c, other)
  {
    if name in c.columns then Candidates(c.order, c.columns[name := c.columns[name] + [i]])
    else
      assert name !in c.order;
      Candidates(c.order + [name], c.columns[name := [i]])
  }

  function AddAll(c: Candidates, names: seq<string>, i: int): (r: Candidates)
    requires WellKeyed(c) && Seqs.NoDup(names)
    ensures WellKeyed(r)
    ensures forall name :: CandidatesOf(r, name) == CandidatesOf(c, name) + (if name in names then [i] else [])
    decreases |names|
  {
    if |names| == 0 then c
    else
      assert Seqs.NoDup(names[1..]) by {
        forall a, b | 0 <= a < b < |names| - 1
          ensures names[1..][a] != names[1..][b]
        {
          assert names[a + 1] != names[b + 1];
        }
      }
      assert forall name :: name in names <==> name == names[0] || name in names[1..] by {
        assert names == [names[0]] + names[1..];
      }
      assert names[0] !in names[1..];
      AddAll(AddCandidate(c, names[0], i), names[1..], i)
  }

  /** The candidate columns after the first `n` columns: every rule maps
      to exactly the columns it fits, in increasing order. */
  function Build(rules: seq<Rule>, tickets: seq<seq<int>>, n: nat): (c: Candidates)
    requires UniqueNames(rules) && Rectangular(tickets, n)
    ensures WellKeyed(c)
    ensures forall name :: Increasing(CandidatesOf(c, name))
    ensures forall name, i :: i in CandidatesOf(c, name) <==> 0 <= i < n && Fits(rules, tickets, name, i)
  {
    if n == 0 then Candidates([], map[])
    else
      var prev := Build(rules, tickets, n - 1);
      var names := FindValidRuleForValues(rules, Column(tickets, n - 1));
      var c := AddAll(prev, names, n - 1);
      forall name
        ensures Increasing(CandidatesOf(c, name))
        ensures forall i :: i in CandidatesOf(c, name) <==> 0 <= i < n && Fits(rules, tickets, name, i)
      {
        BuildStep(rules, tickets, n, prev, names, c, name);
      }
      c
  }

  lemma BuildStep(rules: seq<Rule>, tickets: seq<seq<int>>, n: nat, prev: Candidates, names: seq<string>, c: Candidates, name: string)
    requires n >= 1 && Rectangular(tickets, n)
    requires Increasing(CandidatesOf(prev, name))
    requires forall i :: i in CandidatesOf(prev, name) <==> 0 <= i < n - 1 && Fits(rules, tickets, name, i)
    requires name in names <==> Fits(rules, tickets, name, n - 1)
    requires CandidatesOf(c, name) == CandidatesOf(prev, name) + (if name in names then [n - 1] else [])
    ensures Increasing(CandidatesOf(c, name))
    ensures forall i :: i in CandidatesOf(c, name) <==> 0 <= i < n && Fits(rules, tickets, name, i)
  {
    var p := CandidatesOf(prev, name);
    assert forall k :: 0 <= k < |p| ==> p[k] in p;
  }

  /** Candidates not yet used (`Where(x => !usedIndices.Contains(x))`). */
  function Remaining(candidates: seq<int>, used: seq<int>): (r: seq<int>)
    ensures |r| <= |candidates|
    ensures forall x :: x in r <==> x in candidates && x !in used
    ensures Seqs.NoDup(candidates) ==> Seqs.NoDup(r)
  {
    if |candidates| == 0 then []
    else
      var rest := Remaining(candidates[1..], used);
      assert forall x :: x in candidates <==> x == candidates[0] || x in candidates[1..] by {
        assert candidates == [candidates[0]] + candidates[1..];
      }
      assert Seqs.NoDup(candidates) ==> Seqs.NoDup(candidates[1..]) && candidates[0] !in candidates[1..] by {
       if Seqs.NoDup(candidates) {
        assert Seqs.NoDup(candidates[1..]) by {
          forall a, b | 0 <= a < b < |candidates| - 1
            ensures candidates[1..][a] != candidates[1..][b]
          {
            assert candidates[a + 1] != candidates[b + 1];
          }
        }
        assert candidates[0] !in candidates[1..];
       }
      }
      if candidates[0] in used then rest else [candidates[0]] + rest
  }

  type Mapping = seq<(string, int)>

  function MappedNames(m: Mapping): (r: seq<string>)
    ensures |r| == |m| && forall p :: 0 <= p < |m| ==> r[p] == m[p].0
  {
    seq(|m|, p requires 0 <= p < |m| => m[p].0)
  }

  /** The used indices: `usedIndices` always lists the mapped columns in the
      order they were mapped, so it is read off the mapping. */
  function Used(m: Mapping): (r: seq<int>)
    ensures |r| == |m| && forall p :: 0 <= p < |m| ==> r[p] == m[p].1
  {
    seq(|m|, p requires 0 <= p < |m| => m[p].1)
  }

  /** What every pass keeps: rules and columns are each mapped at most once,
      every rule is mapped to one of its candidates, and a mapped rule has
      no unused candidate left. */
  predicate Consistent(c: Candidates, m: Mapping) {
    && Seqs.NoDup(MappedNames(m))
    && Seqs.NoDup(Used(m))
    && (forall p :: 0 <= p < |m| ==> m[p].1 in CandidatesOf(c, m[p].0))
    && (forall p, x :: 0 <= p < |m| && x in CandidatesOf(c, m[p].0) ==> x in Used(m))
  }

  lemma ExtendConsistent(c: Candidates, m: Mapping, name: string, x: int)
    requires Consistent(c, m)
    requires Remaining(CandidatesOf(c, name), Used(m)) == [x]
    ensures name !in MappedNames(m)
    ensures Consistent(c, m + [(name, x)])
  {
    var m' := m + [(name, x)];
    assert x in Remaining(CandidatesOf(c, name), Used(m));
    assert MappedNames(m') == MappedNames(m) + [name];
    assert Used(m') == Used(m) + [x];
    forall p, y | 0 <= p < |m'| && y in CandidatesOf(c, m'[p].0)
      ensures y in Used(m')
    {
      if p < |m| {
        assert m'[p] == m[p];
        assert y in Used(m);
      } else if y !in Used(m) {
        assert y in Remaining(CandidatesOf(c, name), Used(m));
      }
    }
  }

  /** One pass of the `foreach` over the intermediate dictionary, from key
      position `k`: a rule with exactly one unused candidate is mapped to
      it (mapping a rule twice would throw). */
  function Sweep(c: Candidates, k: nat, m: Mapping, found: bool): (r: Result<(Mapping, bool)>)
    requires Consistent(c, m)
    ensures r.Ok?
    ensures Consistent(c, r.value.0)
    ensures |r.value.0| >= |m| && r.value.0[..|m|] == m
    ensures r.value.1 <==> found || |r.value.0| > |m|
    ensures |r.value.0| == |m| ==> forall q :: k <= q < |c.order| ==> |Remaining(CandidatesOf(c, c.order[q]), Used(m))| != 1
    decreases |c.order| - k
  {
    if k >= |c.order| then Ok((m, found))
    else
      var name := c.order[k];
      var rest := Remaining(CandidatesOf(c, name), Used(m));
      if |rest| == 1 then
        if name in MappedNames(m) then
          assert rest == [rest[0]];
          ExtendConsistent(c, m, name, rest[0]);
          Err(DuplicateKey)
        else
          assert rest == [rest[0]];
          ExtendConsistent(c, m, name, rest[0]);
          var r := Sweep(c, k + 1, m + [(name, rest[0])], true);
          assert r.value.0[..|m|] == r.value.0[..|m| + 1][..|m|];
          r
      else Sweep(c, k + 1, m, found)
  }

  /** Distinct integers in `[0, n)` number at most `n`. */
  lemma DistinctBelow(s: seq<int>, n: nat)
    requires Seqs.NoDup(s) && forall k :: 0 <= k < |s| ==> 0 <= s[k] < n
    ensures |s| <= n
  {
    var xs := set x | x in s;
    Seqs.CardOfNoDup(s);
    assert xs <= Below(n);
    Seqs.SubsetCard(xs, Below(n));
  }

  function Below(n: nat): (r: set<int>)
    ensures |r| == n && forall x :: x in r <==> 0 <= x < n
  {
    if n == 0 then {} else Below(n - 1) + {n - 1}
  }

  /** The `do … while (foundPerfectMatch)` loop: passes repeat while one of
      them maps a rule. Every pass that maps something uses a new column, so
      there are at most `n` of them. */
  function Assign(c: Candidates, m: Mapping, n: nat): (r: Result<Mapping>)
    requires Consistent(c, m) && |m| <= n
    requires forall name, x :: x in CandidatesOf(c, name) ==> 0 <= x < n
    ensures r.Ok? && Consistent(c, r.value)
    ensures forall q :: 0 <= q < |c.order| ==> |Remaining(CandidatesOf(c, c.order[q]), Used(r.value))| != 1
    decreases n - |m|
  {
    var pass := Sweep(c, 0, m, false);
    var (m', found) := pass.value;
    assert |m'| == |m| ==> m' == m by {
      assert m'[..|m|] == m;
    }
    if found then
      assert forall p :: 0 <= p < |m'| ==> 0 <= Used(m')[p] < n;
      DistinctBelow(Used(m'), n);
      Assign(c, m', n)
    else Ok(m')
  }

  /** `GetRuleMapping`: the first ticket fixes the number of columns; no
      tickets, or a ticket shorter than the first, throws. */
  function GetRuleMapping(rules: seq<Rule>, tickets: seq<seq<int>>): (r: Result<Mapping>)
    requires UniqueNames(rules)
    ensures r.Ok? <==> |tickets| > 0 && Rectangular(tickets, |tickets[0]|)
    ensures r.Ok? ==> Seqs.NoDup(MappedNames(r.value)) && Seqs.NoDup(Used(r.value))
    ensures r.Ok? ==> forall p :: 0 <= p < |r.value| ==>
      0 <= r.value[p].1 < |tickets[0]| && Fits(rules, tickets, r.value[p].0, r.value[p].1)
  {
    if |tickets| == 0 then Err("Index was out of range.")
    else
      var n := |tickets[0]|;
      if exists t :: 0 <= t < |tickets| && |tickets[t]| < n then Err("Index was out of range.")
      else
        var c := Build(rules, tickets, n);
        var r := Assign(c, [], n);
        assert forall p :: 0 <= p < |r.value| ==> r.value[p].1 in CandidatesOf(c, r.value[p].0);
        r
  }

  lemma Singleton(s: seq<int>, i: int)
    requires Increasing(s) && i in s && forall x :: x in s ==> x == i
    ensures s == [i]
  {
    if |s| >= 2 {
      FirstTwoIncrease(s);
    }
  }

  lemma FirstTwoIncrease(s: seq<int>)
    requires Increasing(s) && |s| >= 2
    ensures s[0] < s[1] && s[0] in s && s[1] in s
  {
  }

  /** A rule whose candidates are one column: that column. */
  lemma OnlyCandidate(rules: seq<Rule>, tickets: seq<seq<int>>, n: nat, name: string, i: nat)
    requires UniqueNames(rules) && Rectangular(tickets, n)
    requires i < n && Fits(rules, tickets, name, i)
    requires forall j :: 0 <= j < n && j != i ==> !Fits(rules, tickets, name, j)
    ensures CandidatesOf(Build(rules, tickets, n), name) == [i]
    ensures name in Build(rules, tickets, n).order
  {
    var c := Build(rules, tickets, n);
    var s := CandidatesOf(c, name);
    forall x | x in s
      ensures x == i
    {
    }
    Singleton(s, i);
  }

  /** A rule that fits exactly one column makes that column taken: the
      passes cannot stop while it is still free. */
  lemma SingleCandidateIsUsed(rules: seq<Rule>, tickets: seq<seq<int>>, name: string, i: nat)
    requires UniqueNames(rules) && |tickets| > 0 && Rectangular(tickets, |tickets[0]|)
    requires i < |tickets[0]| && Fits(rules, tickets, name, i)
    requires forall j :: 0 <= j < |tickets[0]| && j != i ==> !Fits(rules, tickets, name, j)
    ensures GetRuleMapping(rules, tickets).Ok?
    ensures i in Used(GetRuleMapping(rules, tickets).value)
  {
    var n := |tickets[0]|;
    var c := Build(rules, tickets, n);
    assert GetRuleMapping(rules, tickets) == Assign(c, [], n);
    var m := Assign(c, [], n).value;
    OnlyCandidate(rules, tickets, n, name, i);
    var q :| 0 <= q < |c.order| && c.order[q] == name;
    var r := Remaining(CandidatesOf(c, name), Used(m));
    assert |r| != 1;
    assert i !in r;
  }

  /** When a rule and a column fit only each other, the rule is mapped to
      that column. */
  lemma ExclusivePairIsMapped(rules: seq<Rule>, tickets: seq<seq<int>>, name: string, i: nat)
    requires UniqueNames(rules) && |tickets| > 0 && Rectangular(tickets, |tickets[0]|)
    requires i < |tickets[0]| && Fits(rules, tickets, name, i)
    requires forall j :: 0 <= j < |tickets[0]| && j != i ==> !Fits(rules, tickets, name, j)
    requires forall other :: other != name ==> !Fits(rules, tickets, other, i)
    ensures GetRuleMapping(rules, tickets).Ok?
    ensures (name, i) in GetRuleMapping(rules, tickets).value
  {
    SingleCandidateIsUsed(rules, tickets, name, i);
    var m := GetRuleMapping(rules, tickets).value;
    var p :| 0 <= p < |m| && Used(m)[p] == i;
    assert m[p].1 == i;
    assert Fits(rules, tickets, m[p].0, m[p].1);
    assert m[p].0 == name;
    assert m[p] in m;
  }

  // ---------------------------------------------------------------- part 2

  function ValidTickets(tickets: seq<seq<int>>, rules: seq<Rule>): (r: seq<seq<int>>)
    ensures forall t :: t in r <==> t in tickets && GetInvalidValues(t, rules) == []
  {
    if |tickets| == 0 then []
    else
      assert forall t :: t in tickets <==> t == tickets[0] || t in tickets[1..] by {
        assert tickets == [tickets[0]] + tickets[1..];
      }
      (if GetInvalidValues(tickets[0], rules) == [] then [tickets[0]] else []) + ValidTickets(tickets[1..], rules)
  }

  function StartsWith(s: string, prefix: string): bool {
    |prefix| <= |s| && s[..|prefix|] == prefix
  }

  /** The columns of the rules whose name starts with `departure`, in
      mapping order. */
  function DepartureIndices(m: Mapping): (r: seq<int>)
    ensures forall x :: x in r <==> exists p :: 0 <= p < |m| && StartsWith(m[p].0, "departure") && m[p].1 == x
  {
    if |m| == 0 then []
    else
      var rest := DepartureIndices(m[1..]);
      assert forall x :: x in rest <==> exists p :: 1 <= p < |m| && StartsWith(m[p].0, "departure") && m[p].1 == x by {
        forall x
          ensures x in rest <==> exists p :: 1 <= p < |m| && StartsWith(m[p].0, "departure") && m[p].1 == x
        {
          if x in rest {
            var p :| 0 <= p < |m| - 1 && StartsWith(m[1..][p].0, "departure") && m[1..][p].1 == x;
            assert m[p + 1] == m[1..][p];
          }
          if exists p :: 1 <= p < |m| && StartsWith(m[p].0, "departure") && m[p].1 == x {
            var p :| 1 <= p < |m| && StartsWith(m[p].0, "departure") && m[p].1 == x;
            assert m[1..][p - 1] == m[p];
          }
        }
      }
      (if StartsWith(m[0].0, "departure") then [m[0].1] else []) + rest
  }

  /** The own ticket's values at the given columns, multiplied; a column
      outside the ticket throws and no columns give 1. */
  function DepartureProduct(yourTicket: seq<int>, indices: seq<int>): (r: Result<int>)
    ensures r.Ok? <==> forall k :: 0 <= k < |indices| ==> 0 <= indices[k] < |yourTicket|
    ensures |indices| == 0 ==> r == Ok(1)
    ensures r.Ok? ==> r.value == Seqs.Product(Picked(yourTicket, indices))
  {
    if |indices| == 0 then Ok(1)
    else if !(0 <= indices[0] < |yourTicket|) then Err("Index was out of range.")
    else
      var rest :- DepartureProduct(yourTicket, indices[1..]);
      assert forall k :: 1 <= k < |indices| ==> indices[k] == indices[1..][k - 1];
      assert Picked(yourTicket, indices)[1..] == Picked(yourTicket, indices[1..]);
      Ok(yourTicket[indices[0]] * rest)
  }

  /** The own ticket's values at the given columns, in order. */
  function Picked(yourTicket: seq<int>, indices: seq<int>): (r: seq<int>)
    requires forall k :: 0 <= k < |indices| ==> 0 <= indices[k] < |yourTicket|
  {
    seq(|indices|, k requires 0 <= k < |indices| => yourTicket[indices[k]])
  }

  /** Two products combine: picking from a concatenation multiplies. */
  lemma {:induction false} DepartureProductAppend(yourTicket: seq<int>, a: seq<int>, b: seq<int>)
    requires DepartureProduct(yourTicket, a).Ok? && DepartureProduct(yourTicket, b).Ok?
    ensures DepartureProduct(yourTicket, a + b) == Ok(DepartureProduct(yourTicket, a).value * DepartureProduct(yourTicket, b).value)
  {
    if |a| == 0 {
      assert a + b == b;
    } else {
      assert (a + b)[1..] == a[1..] + b;
      DepartureProductAppend(yourTicket, a[1..], b);
      var x := yourTicket[a[0]];
      var p := DepartureProduct(yourTicket, a[1..]).value;
      var q := DepartureProduct(yourTicket, b).value;
      assert x * (p * q) == (x * p) * q;
    }
  }

  /** Part 2 can answer on these notes: the rule mapping of the valid
      tickets exists (there is a valid ticket and none is shorter than the
      first) and every `departure` column lies inside the own ticket. */
  predicate Answerable(notes: Notes)
    requires UniqueNames(notes.rules)
  {
    var mapping := GetRuleMapping(notes.rules, ValidTickets(notes.tickets, notes.rules));
    && mapping.Ok?
    && forall k :: 0 <= k < |DepartureIndices(mapping.value)| ==> 0 <= DepartureIndices(mapping.value)[k] < |notes.yourTicket|
  }

  /** The answer multiplies the own ticket's values at the columns the rule
      mapping of the valid tickets gives to the `departure` rules. */
  function Part2(lines: seq<string>): (r: Result<int>)
    ensures ParseInput(lines).Err? ==> r.Err?
    ensures r.Ok? <==> ParseInput(lines).Ok? && Answerable(ParseInput(lines).value)
    ensures r.Ok? ==> ParseInput(lines).Ok?
    ensures r.Ok? ==> (
      var notes := ParseInput(lines).value;
      var mapping := GetRuleMapping(notes.rules, ValidTickets(notes.tickets, notes.rules));
      && mapping.Ok?
      && (forall k :: 0 <= k < |DepartureIndices(mapping.value)| ==> 0 <= DepartureIndices(mapping.value)[k] < |notes.yourTicket|)
      && r.value == Seqs.Product(Picked(notes.yourTicket, DepartureIndices(mapping.value))))
  {
    var notes :- ParseInput(lines);
    DepartureAnswer(notes)
  }

  /** Part 2 once the notes are parsed. */
  function DepartureAnswer(notes: Notes): (r: Result<int>)
    requires UniqueNames(notes.rules)
    ensures r.Ok? <==> Answerable(notes)
    ensures r.Ok? ==> (
      var mapping := GetRuleMapping(notes.rules, ValidTickets(notes.tickets, notes.rules));
      && mapping.Ok?
      && (forall k :: 0 <= k < |DepartureIndices(mapping.value)| ==> 0 <= DepartureIndices(mapping.value)[k] < |notes.yourTicket|)
      && r.value == Seqs.Product(Picked(notes.yourTicket, DepartureIndices(mapping.value))))
  {
    var valid := ValidTickets(notes.tickets, notes.rules);
    var mapping :- GetRuleMapping(notes.rules, valid);
    DepartureProduct(notes.yourTicket, DepartureIndices(mapping))
  }
}
