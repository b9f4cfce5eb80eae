/** Day 7, Handy Haversacks: each rule line says which bags (with counts) a
    bag directly contains. Part 1 counts the bags that can eventually contain
    a shiny gold bag; part 2 counts the bags a shiny gold bag holds.

    The original connects `Bag` objects; here the connections are two maps
    keyed by bag id. Both counts recurse without a visited check, so a cyclic
    rule set recurses forever; `fuel` bounds the recursion depth and `None`
    stands for running out of it. */
module Day7 {
  import opened Wrappers
  import opened Strings

  const Gold := "shiny gold"

  /** `CleanBagId`: drop every `bags`, then every `bag` (ignoring case), then
      trim. */
  function CleanBagId(s: string): (r: string)
    ensures |r| > 0 ==> !IsWhiteSpace(r[0]) && !IsWhiteSpace(r[|r| - 1])
  {
    Trim(Replace(Replace(s, "bags", "", true), "bag", "", true))
  }

  /** One comma-separated piece of a rule's right-hand side: the first two
      characters hold the count, the rest (dots trimmed) the bag. */
  function ParseContent(piece: string): (r: Result<(string, int)>)
    ensures r.Ok? ==> |piece| >= 2
  {
    if |piece| < 2 then Err("Index and count must refer to a location within the string")
    else match ParseInt(Trim(piece[..2]))
      case None => Err("Input string was not in a correct format")
      case Some(w) => Ok((CleanBagId(TrimChar(piece[2..], '.')), w))
  }

  function ParseContents(pieces: seq<string>): (r: Result<seq<(string, int)>>)
    ensures r.Ok? ==> |r.value| == |pieces|
  {
    if |pieces| == 0 then Ok([])
    else
      var first :- ParseContent(pieces[0]);
      var rest :- ParseContents(pieces[1..]);
      Ok([first] + rest)
  }

  datatype Rule = Rule(id: string, contents: seq<(string, int)>)

  /** One input line: the bag before `contain`, and what follows it; a line
      that says `no other bags` (any case) contains nothing. */
  function ParseRule(line: string): (r: Result<Rule>)
    ensures r.Ok? ==> r.value.id == CleanBagId(Split(line, "contain")[0])
  {
    var halves := Split(line, "contain");
    if |halves| < 2 then Err("Index was outside the bounds of the array")
    else
      var contents :-
        if Contains(halves[1], "no other bags", true) then Ok([])
        else ParseContents(Split(halves[1], ","));
      Ok(Rule(CleanBagId(halves[0]), contents))
  }

  // ------------------------------------------------------------ rules as the input writes them

  /** A bag name as the input writes it: not empty, no white space at either
      end, no comma, and none of the words the parser cuts on: `bag` in any
      case, the `cont` of `contain`, the `other` of `no other bags`. */
  ghost predicate CleanName(id: string) {
    |id| > 0 && !IsWhiteSpace(id[0]) && !IsWhiteSpace(id[|id| - 1]) && ',' !in id
    && NoMatch(id, "bag", true) && NoMatch(id, "cont", false) && NoMatch(id, "other", true)
  }

  /** `bag` after a count of one, `bags` otherwise. */
  function Noun(w: int): string {
    if w == 1 then "bag" else "bags"
  }

  /** One entry of a rule's contents as the input writes it, ` 2 muted yellow
      bags`; the last entry ends in a full stop. */
  function PieceText(c: (string, int), last: bool): string
    requires 0 <= c.1 < 10
  {
    " " + [DigitChar(c.1)] + " " + c.0 + " " + Noun(c.1) + (if last then "." else "")
  }

  predicate SmallCounts(cs: seq<(string, int)>) {
    forall k :: 0 <= k < |cs| ==> 0 <= cs[k].1 < 10
  }

  /** The entries joined by commas. */
  function ContentsText(cs: seq<(string, int)>): string
    requires |cs| > 0 && SmallCounts(cs)
  {
    if |cs| == 1 then PieceText(cs[0], true)
    else PieceText(cs[0], false) + "," + ContentsText(cs[1..])
  }

  /** A rule line as the input writes it: `light red bags contain 1 bright
      white bag, 2 muted yellow bags.` or `faded blue bags contain no other
      bags.` */
  function RuleText(rule: Rule): string
    requires SmallCounts(rule.contents)
  {
    rule.id + " bags contain" + ContentsPart(rule.contents)
  }

  /** The facts about the pieces around the word that both removals use. */
  lemma StripFacts(lead: string, id: string, tail: string)
    requires IsBlank(lead) && IsBlank(tail) && CleanName(id)
    ensures NoMatch(lead + id, "bag", true) && NoMatch(lead + id, "bags", true)
    ensures NoMatch(tail, "bag", true) && NoMatch(tail, "bags", true) && Avoids(tail, "bags", true)
    ensures Avoids(" ", "bag", true) && Avoids(" ", "bags", true)
  {
    BlankAvoids(lead, "bag", true);
    BlankAvoids(tail, "bag", true);
    BlankAvoids(tail, "bags", true);
    NoMatchJoin("", lead, id, "bag", true);
    assert "" + lead + id == lead + id;
    assert "bags"[0..3] == "bag";
    NoMatchPart(lead + id, "bags", 0, 3, true);
    NoMatchJoin("", tail, "", "bag", true);
    NoMatchJoin("", tail, "", "bags", true);
    assert "" + tail + "" == tail;
  }

  /** Removing `word` and then `other` from `p`, a space, `word` and `tail`
      takes out just the word when neither piece holds either pattern. */
  lemma StripFirst(p: string, word: string, other: string, tail: string)
    requires |word| > 0 && |other| > 0
    requires NoMatch(p, word, true) && NoMatch(p, other, true)
    requires NoMatch(tail, word, true) && NoMatch(tail, other, true)
    requires Avoids(" ", word, true) && Avoids(" ", other, true)
    ensures Replace(Replace(p + " " + word + tail, word, "", true), other, "", true) == p + " " + tail
  {
    RemoveBetween(p, " ", word, tail, true);
    NoMatchJoin(p, " ", tail, other, true);
  }

  /** When the first removal finds nothing, the second takes out `word`. */
  lemma StripSecond(p: string, first: string, word: string, tail: string)
    requires |word| > 0 && |first| > 0
    requires NoMatch(p + " " + word + tail, first, true)
    requires NoMatch(p, word, true) && NoMatch(tail, word, true) && Avoids(" ", word, true)
    ensures Replace(Replace(p + " " + word + tail, first, "", true), word, "", true) == p + " " + tail
  {
    RemoveBetween(p, " ", word, tail, true);
  }

  /** `bag` followed by white space holds no `bags`. */
  lemma BagNotBags(p: string, tail: string)
    requires NoMatch(p, "bags", true) && Avoids(tail, "bags", true) && Avoids(" ", "bags", true)
    ensures NoMatch(p + " " + "bag" + tail, "bags", true)
  {
    if |tail| > 0 {
      NoMatchJoin("bag", tail, "", "bags", true);
      assert "bag" + tail + "" == "bag" + tail;
    } else {
      assert "bag" + tail == "bag";
    }
    NoMatchJoin(p, " ", "bag" + tail, "bags", true);
    assert p + " " + "bag" + tail == p + " " + ("bag" + tail);
  }

  /** The two removals of `CleanBagId` take out the noun after `p`. */
  lemma StripNoun(p: string, noun: string, tail: string)
    requires noun == "bag" || noun == "bags"
    requires NoMatch(p, "bag", true) && NoMatch(p, "bags", true)
    requires NoMatch(tail, "bag", true) && NoMatch(tail, "bags", true)
    requires Avoids(tail, "bags", true)
    requires Avoids(" ", "bag", true) && Avoids(" ", "bags", true)
    ensures Replace(Replace(p + " " + noun + tail, "bags", "", true), "bag", "", true) == p + " " + tail
  {
    if noun == "bags" {
      StripFirst(p, "bags", "bag", tail);
    } else {
      BagNotBags(p, tail);
      StripSecond(p, "bags", "bag", tail);
    }
  }

  lemma TrimName(lead: string, id: string, tail: string)
    requires IsBlank(lead) && IsBlank(tail)
    requires |id| > 0 && !IsWhiteSpace(id[0]) && !IsWhiteSpace(id[|id| - 1])
    ensures Trim(lead + id + " " + tail) == id
  {
    assert lead + id + " " + tail == lead + id + (" " + tail);
    TrimPadded(lead, id, " " + tail);
  }

  /** `CleanBagId` removes the word `bag` or `bags` after a clean name and the
      white space around it, giving the name back. */
  lemma CleanBagIdStrips(lead: string, id: string, noun: string, tail: string)
    requires IsBlank(lead) && IsBlank(tail) && CleanName(id)
    requires noun == "bag" || noun == "bags"
    ensures CleanBagId(lead + id + " " + noun + tail) == id
  {
    var p := lead + id;
    var t := p + " " + tail;
    assert Replace(Replace(p + " " + noun + tail, "bags", "", true), "bag", "", true) == t by {
      StripFacts(lead, id, tail);
      StripNoun(p, noun, tail);
    }
    TrimName(lead, id, tail);
  }

  lemma DigitReads(w: int)
    requires 0 <= w < 10
    ensures ParseInt(Trim(" " + [DigitChar(w)])) == Some(w)
  {
    var d := DigitChar(w);
    TrimPadded(" ", [d], "");
    assert " " + [d] + "" == " " + [d];
    assert [d][..0] == [];
    assert DigitsValue([d]) == w;
  }

  lemma PieceBag(c: (string, int), last: bool)
    requires CleanName(c.0) && 0 <= c.1 < 10
    ensures CleanBagId(TrimChar(PieceText(c, last)[2..], '.')) == c.0
  {
    var noun := Noun(c.1);
    var core := " " + c.0 + " " + noun;
    var end := if last then "." else "";
    assert PieceText(c, last)[2..] == "" + core + end;
    TrimSetPadded("", core, end, {'.'});
    CleanBagIdStrips(" ", c.0, noun, "");
    assert " " + c.0 + " " + noun + "" == core;
  }

  /** An entry written out parses back to its bag and count. */
  lemma ParseContentOfText(c: (string, int), last: bool)
    requires CleanName(c.0) && 0 <= c.1 < 10
    ensures ParseContent(PieceText(c, last)) == Ok(c)
  {
    var piece := PieceText(c, last);
    assert piece[..2] == " " + [DigitChar(c.1)];
    DigitReads(c.1);
    PieceBag(c, last);
  }

  /** The entries of a written-out contents list, one per comma-separated piece. */
  function Pieces(cs: seq<(string, int)>): seq<string>
    requires |cs| > 0 && SmallCounts(cs)
  {
    if |cs| == 1 then [PieceText(cs[0], true)] else [PieceText(cs[0], false)] + Pieces(cs[1..])
  }

  ghost predicate CleanContents(cs: seq<(string, int)>) {
    SmallCounts(cs) && forall k :: 0 <= k < |cs| ==> CleanName(cs[k].0)
  }

  lemma {:induction false} SplitContents(cs: seq<(string, int)>)
    requires |cs| > 0 && CleanContents(cs)
    ensures Split(ContentsText(cs), ",") == Pieces(cs)
  {
    var last := |cs| == 1;
    assert ',' !in PieceText(cs[0], last);
    if last {
      SplitNoSeparator(PieceText(cs[0], true), ',');
    } else {
      SplitContents(cs[1..]);
      SplitAtFirst(PieceText(cs[0], false), ',', ContentsText(cs[1..]));
    }
  }

  lemma {:induction false} ParseContentsOfText(cs: seq<(string, int)>)
    requires |cs| > 0 && CleanContents(cs)
    ensures ParseContents(Pieces(cs)) == Ok(cs)
  {
    ParseContentOfText(cs[0], |cs| == 1);
    if |cs| > 1 {
      ParseContentsOfText(cs[1..]);
      assert Pieces(cs)[1..] == Pieces(cs[1..]);
    }
    assert cs == [cs[0]] + cs[1..];
  }

  /** The characters written around the names of a contents list. */
  predicate SeparatorChar(c: char) {
    c == ' ' || IsDigit(c) || c == '.' || c == ',' || c == 'b' || c == 'a' || c == 'g' || c == 's'
  }

  ghost predicate AvoidsSeparators(pat: string, ignoreCase: bool) {
    forall c, k :: SeparatorChar(c) && 0 <= k < |pat| ==> !CharEq(c, pat[k], ignoreCase)
  }

  lemma SeparatorsAvoid(m: string, pat: string, ignoreCase: bool)
    requires AvoidsSeparators(pat, ignoreCase) && forall i :: 0 <= i < |m| ==> SeparatorChar(m[i])
    ensures Avoids(m, pat, ignoreCase)
  {
  }

  lemma PatternsAvoidSeparators()
    ensures AvoidsSeparators("cont", false) && AvoidsSeparators("other", true)
  {
  }

  /** A pattern that no name holds and that shares no character with the
      separators occurs nowhere in a written-out contents list. */
  lemma {:induction false} ContentsNoMatch(cs: seq<(string, int)>, pat: string, ignoreCase: bool)
    requires |cs| > 0 && SmallCounts(cs) && |pat| > 0 && AvoidsSeparators(pat, ignoreCase)
    requires forall k :: 0 <= k < |cs| ==> NoMatch(cs[k].0, pat, ignoreCase)
    ensures NoMatch(ContentsText(cs), pat, ignoreCase)
  {
    PieceNoMatch(cs[0], |cs| == 1, pat, ignoreCase);
    if |cs| > 1 {
      SeparatorsAvoid(",", pat, ignoreCase);
      ContentsNoMatch(cs[1..], pat, ignoreCase);
      NoMatchJoin(PieceText(cs[0], false), ",", ContentsText(cs[1..]), pat, ignoreCase);
    }
  }

  /** One written-out entry holds the pattern only if its name does. */
  lemma PieceNoMatch(c: (string, int), last: bool, pat: string, ignoreCase: bool)
    requires 0 <= c.1 < 10 && |pat| > 0 && AvoidsSeparators(pat, ignoreCase)
    requires NoMatch(c.0, pat, ignoreCase)
    ensures NoMatch(PieceText(c, last), pat, ignoreCase)
  {
    var m1 := " " + [DigitChar(c.1)] + " ";
    SeparatorsAvoid(m1, pat, ignoreCase);
    NoMatchJoin("", m1, c.0, pat, ignoreCase);
    var front := m1 + c.0;
    assert "" + m1 + c.0 == front;
    var m2 := " " + Noun(c.1) + (if last then "." else "");
    SeparatorsAvoid(m2, pat, ignoreCase);
    NoMatchJoin(front, m2, "", pat, ignoreCase);
    assert PieceText(c, last) == front + m2 + "";
  }

  /** What a written-out rule says after `contain`. */
  function ContentsPart(cs: seq<(string, int)>): string
    requires SmallCounts(cs)
  {
    if |cs| == 0 then " no other bags." else ContentsText(cs)
  }

  /** The only `contain` of a written-out rule is the one after the bag. */
  lemma RuleHalves(rule: Rule)
    requires CleanName(rule.id) && CleanContents(rule.contents)
    ensures Split(RuleText(rule), "contain") == [rule.id + " bags ", ContentsPart(rule.contents)]
  {
    var id := rule.id;
    var cs := rule.contents;
    var rest := ContentsPart(cs);
    var line := RuleText(rule);
    var a := id + " bags ";
    assert line == a + "contain" + rest;
    FrontFreeOfContain(id, rest);
    RestNoContain(cs);
    SplitAfter(a, "contain", rest);
    SplitWhole(rest, "contain");
  }

  /** No `contain` starts within a clean name and the ` bags ` after it. */
  lemma FrontFreeOfContain(id: string, rest: string)
    requires CleanName(id)
    ensures forall j: nat :: j < |id + " bags "| ==> !MatchesAt(id + " bags " + "contain" + rest, j, "contain", false)
  {
    var line := id + " bags " + "contain" + rest;
    PatternsAvoidSeparators();
    SeparatorsAvoid(" bags ", "cont", false);
    NoMatchBefore(id, " bags ", "contain" + rest, "cont", false);
    assert line == id + " bags " + ("contain" + rest);
    NoContainBefore(line, |id + " bags "|);
  }

  /** A prefix free of `cont` is free of `contain`. */
  lemma NoContainBefore(line: string, n: nat)
    requires forall j: nat :: j < n ==> !MatchesAt(line, j, "cont", false)
    ensures forall j: nat :: j < n ==> !MatchesAt(line, j, "contain", false)
  {
    assert "contain"[0..4] == "cont";
    forall j: nat | j < n ensures !MatchesAt(line, j, "contain", false) {
      if MatchesAt(line, j, "contain", false) {
        MatchPart(line, j, "contain", 0, 4, false);
      }
    }
  }

  lemma RestNoContain(cs: seq<(string, int)>)
    requires CleanContents(cs)
    ensures NoMatch(ContentsPart(cs), "contain", false)
  {
    var rest := ContentsPart(cs);
    if |cs| == 0 {
      assert Avoids(rest, "c", false);
      NoMatchJoin("", rest, "", "c", false);
      assert "" + rest + "" == rest;
      assert "contain"[0..1] == "c";
      NoMatchPart(rest, "contain", 0, 1, false);
    } else {
      PatternsAvoidSeparators();
      ContentsNoMatch(cs, "cont", false);
      assert "contain"[0..4] == "cont";
      NoMatchPart(rest, "contain", 0, 4, false);
    }
  }

  /** The text after `contain` parses back to the contents. */
  lemma ContentsPartParses(cs: seq<(string, int)>)
    requires CleanContents(cs)
    ensures (if Contains(ContentsPart(cs), "no other bags", true) then Ok([])
             else ParseContents(Split(ContentsPart(cs), ","))) == Ok(cs)
  {
    var rest := ContentsPart(cs);
    if |cs| == 0 {
      assert MatchesAt(rest, 1, "no other bags", true);
      ContainsIff(rest, "no other bags", true);
    } else {
      PatternsAvoidSeparators();
      ContentsNoMatch(cs, "other", true);
      assert "no other bags"[3..8] == "other";
      NoMatchPart(rest, "no other bags", 3, 5, true);
      ContainsIff(rest, "no other bags", true);
      SplitContents(cs);
      ParseContentsOfText(cs);
    }
  }

  /** A rule written out the way the input writes it parses back to itself:
      its bag, and each contained bag with its count, in order. */
  lemma ParseRuleOfText(rule: Rule)
    requires CleanName(rule.id) && CleanContents(rule.contents)
    ensures ParseRule(RuleText(rule)) == Ok(rule)
  {
    var a := rule.id + " bags ";
    var rest := ContentsPart(rule.contents);
    assert Split(RuleText(rule), "contain") == [a, rest] by {
      RuleHalves(rule);
    }
    CleanBagIdOfLeft(rule.id);
    ContentsPartParses(rule.contents);
    ParseRuleOfHalves(RuleText(rule), a, rest, rule);
  }

  /** The left half of a written-out rule cleans to its bag. */
  lemma CleanBagIdOfLeft(id: string)
    requires CleanName(id)
    ensures CleanBagId(id + " bags ") == id
  {
    var s := id + " bags ";
    assert s == "" + id + " " + "bags" + " " by {
      assert s == id + (" " + "bags" + " ");
      assert "" + id == id;
    }
    assert IsBlank("") && IsBlank(" ");
    CleanBagIdStrips("", id, "bags", " ");
  }

  lemma ParseRuleOfHalves(line: string, a: string, rest: string, rule: Rule)
    requires Split(line, "contain") == [a, rest] && CleanBagId(a) == rule.id
    requires (if Contains(rest, "no other bags", true) then Ok([])
              else ParseContents(Split(rest, ","))) == Ok(rule.contents)
    ensures ParseRule(line) == Ok(rule)
  {
  }

  // ------------------------------------------------------------ the bag graph

  /** `ContainBags` and `IsContainedByBags` of every bag, by id. */
  datatype Graph = Graph(contains: map<string, seq<(string, int)>>, containedBy: map<string, seq<string>>)

  function Parents(g: Graph, b: string): seq<string> {
    if b in g.containedBy then g.containedBy[b] else []
  }

  function Children(g: Graph, b: string): seq<(string, int)> {
    if b in g.contains then g.contains[b] else []
  }

  /** `from` once for every entry of `contents` naming the bag `b`: the
      parents a rule gives `b`. */
  function Incoming(from: string, contents: seq<(string, int)>, b: string): seq<string> {
    if |contents| == 0 then []
    else (if contents[0].0 == b then [from] else []) + Incoming(from, contents[1..], b)
  }

  function Named(contents: seq<(string, int)>): set<string> {
    set k | 0 <= k < |contents| :: contents[k].0
  }

  lemma NamedCons(contents: seq<(string, int)>)
    requires |contents| > 0
    ensures Named(contents) == {contents[0].0} + Named(contents[1..])
  {
    forall x | x in Named(contents) ensures x in {contents[0].0} + Named(contents[1..]) {
      var k :| 0 <= k < |contents| && contents[k].0 == x;
      if k > 0 { assert contents[1..][k - 1].0 == x; }
    }
    forall x | x in Named(contents[1..]) ensures x in Named(contents) {
      var k :| 0 <= k < |contents[1..]| && contents[1..][k].0 == x;
      assert contents[k + 1].0 == x;
    }
  }

  /** `ConnectBags` for one rule: each contained bag must exist (`First`
      throws otherwise); the edge is appended to both lists. Only the first bag
      with a given id is ever connected, which keying by id models. On
      success the rule's bag has the contents appended to what it contained,
      every contained bag has the rule's bag appended to its parents once per
      mention, and nothing else changes. */
  function Connect(g: Graph, ids: set<string>, from: string, contents: seq<(string, int)>): (r: Result<Graph>)
    requires from in g.contains && from in g.containedBy
    ensures r.Ok? <==> forall k :: 0 <= k < |contents| ==> contents[k].0 in ids
    ensures r.Ok? ==> r.value.contains == g.contains[from := g.contains[from] + contents]
    ensures r.Ok? ==> r.value.containedBy.Keys == g.containedBy.Keys + Named(contents)
    ensures r.Ok? ==> forall b :: Parents(r.value, b) == Parents(g, b) + Incoming(from, contents, b)
    decreases |contents|
  {
    if |contents| == 0 then
      assert Named(contents) == {};
      assert forall b :: Parents(g, b) + Incoming(from, contents, b) == Parents(g, b);
      assert g.contains[from] + contents == g.contains[from];
      Ok(g)
    else
      var (to, w) := contents[0];
      if to !in ids then Err("Sequence contains no matching element")
      else
        var g' := Graph(g.contains[from := g.contains[from] + [(to, w)]],
                        g.containedBy[to := Parents(g, to) + [from]]);
        var r := Connect(g', ids, from, contents[1..]);
        ConnectStep(g, g', ids, from, contents, r);
        r
  }

  /** The contract of `Connect` for a list, from the contract for its tail
      and the first edge. */
  lemma ConnectStep(g: Graph, g': Graph, ids: set<string>, from: string, contents: seq<(string, int)>, r: Result<Graph>)
    requires |contents| > 0 && contents[0].0 in ids && from in g.contains && from in g.containedBy
    requires g' == Graph(g.contains[from := g.contains[from] + [contents[0]]],
                         g.containedBy[contents[0].0 := Parents(g, contents[0].0) + [from]])
    requires r.Ok? <==> forall k :: 0 <= k < |contents[1..]| ==> contents[1..][k].0 in ids
    requires r.Ok? ==> r.value.contains == g'.contains[from := g'.contains[from] + contents[1..]]
    requires r.Ok? ==> r.value.containedBy.Keys == g'.containedBy.Keys + Named(contents[1..])
    requires r.Ok? ==> forall b :: Parents(r.value, b) == Parents(g', b) + Incoming(from, contents[1..], b)
    ensures r.Ok? <==> forall k :: 0 <= k < |contents| ==> contents[k].0 in ids
    ensures r.Ok? ==> r.value.contains == g.contains[from := g.contains[from] + contents]
    ensures r.Ok? ==> r.value.containedBy.Keys == g.containedBy.Keys + Named(contents)
    ensures r.Ok? ==> forall b :: Parents(r.value, b) == Parents(g, b) + Incoming(from, contents, b)
  {
    assert forall k :: 1 <= k < |contents| ==> contents[k] == contents[1..][k - 1];
    NamedCons(contents);
    if r.Ok? {
      ParentsAdd(g, g'.contains, contents[0].0, from);
      forall b ensures Parents(r.value, b) == Parents(g, b) + Incoming(from, contents, b) {
        ConnectParents(Parents(g, b), Parents(g', b), Parents(r.value, b), from, contents, b);
      }
      ConsAppend(g.contains[from], contents);
    }
  }

  lemma ConsAppend<T>(before: seq<T>, xs: seq<T>)
    requires |xs| > 0
    ensures before + xs == (before + [xs[0]]) + xs[1..]
  {
    assert xs == [xs[0]] + xs[1..];
  }

  /** Appending `from` to the parents of `to` changes no other bag's parents. */
  lemma ParentsAdd(g: Graph, c: map<string, seq<(string, int)>>, to: string, from: string)
    ensures var g' := Graph(c, g.containedBy[to := Parents(g, to) + [from]]);
            forall b :: Parents(g', b) == Parents(g, b) + (if to == b then [from] else [])
  {
  }

  lemma ConnectParents(pg: seq<string>, pg': seq<string>, ph: seq<string>, from: string, contents: seq<(string, int)>, b: string)
    requires |contents| > 0
    requires pg' == pg + (if contents[0].0 == b then [from] else [])
    requires ph == pg' + Incoming(from, contents[1..], b)
    ensures ph == pg + Incoming(from, contents, b)
  {
    var e := if contents[0].0 == b then [from] else [];
    assert Incoming(from, contents, b) == e + Incoming(from, contents[1..], b);
  }


  function ConnectAll(g: Graph, ids: set<string>, rules: seq<Rule>): Result<Graph>
    requires forall k :: 0 <= k < |rules| ==> rules[k].id in g.contains && rules[k].id in g.containedBy
    decreases |rules|
  {
    if |rules| == 0 then Ok(g)
    else
      var g' :- Connect(g, ids, rules[0].id, rules[0].contents);
      ConnectAll(g', ids, rules[1..])
  }

  function ParseRules(lines: seq<string>): (r: Result<seq<Rule>>)
    ensures r.Ok? ==> |r.value| == |lines|
  {
    if |lines| == 0 then Ok([])
    else
      var first :- ParseRule(lines[0]);
      var rest :- ParseRules(lines[1..]);
      Ok([first] + rest)
  }

  function Ids(rules: seq<Rule>): (ids: set<string>)
    ensures forall k :: 0 <= k < |rules| ==> rules[k].id in ids
  {
    set k | 0 <= k < |rules| :: rules[k].id
  }

  /** `ParseAndConnectBags`: one bag per line, then every rule's edges. */
  function BuildGraph(lines: seq<string>): Result<(Graph, set<string>)> {
    var rules :- ParseRules(lines);
    var ids := Ids(rules);
    var empty := Graph(map b | b in ids :: [], map b | b in ids :: []);
    var g :- ConnectAll(empty, ids, rules);
    Ok((g, ids))
  }

  /** Part 1: `First` throws when there is no shiny gold bag. The answer is
      the number of other bags in the containment-closed set the visit from
      the shiny gold bag reaches (the least one, by `CountUpLeast`). */
  function Part1(lines: seq<string>, fuel: nat): (r: Result<nat>)
    ensures BuildGraph(lines).Ok? && Gold !in BuildGraph(lines).value.1 ==> r.Err?
    ensures r.Ok? <==> (BuildGraph(lines).Ok? && Gold in BuildGraph(lines).value.1
                        && CountUp(BuildGraph(lines).value.0, Gold, {Gold}, fuel).Some?)
    ensures r.Ok? ==> BuildGraph(lines).Ok? && Gold in BuildGraph(lines).value.1
    ensures r.Ok? ==>
              var g := BuildGraph(lines).value.0;
              var v := CountUp(g, Gold, {Gold}, fuel);
              && v.Some? && Gold in v.value.visited && UpClosed(g, v.value.visited)
              && r.value == |v.value.visited - {Gold}|
  {
    var (g, ids) :- BuildGraph(lines);
    if Gold !in ids then Err("Sequence contains no matching element")
    else match CountUp(g, Gold, {Gold}, fuel)
      case None => Err("Stack overflow")
      case Some(v) => Part1Counts(g, fuel); Ok(v.count)
  }

  /** Part 2: the total less the shiny gold bag itself; with non-negative
      counts, the number of physical bags inside the shiny gold one. */
  function Part2(lines: seq<string>, fuel: nat): (r: Result<int>)
    ensures BuildGraph(lines).Ok? && Gold !in BuildGraph(lines).value.1 ==> r.Err?
    ensures r.Ok? <==> (BuildGraph(lines).Ok? && Gold in BuildGraph(lines).value.1
                        && Total(BuildGraph(lines).value.0, Gold, fuel).Some?)
    ensures r.Ok? ==> BuildGraph(lines).Ok? && Gold in BuildGraph(lines).value.1
    ensures r.Ok? && NonNegative(BuildGraph(lines).value.0) ==>
              var inside := Inside(BuildGraph(lines).value.0, Gold, fuel);
              inside.Some? && r.value == |inside.value|
  {
    var (g, ids) :- BuildGraph(lines);
    if Gold !in ids then Err("Sequence contains no matching element")
    else match Total(g, Gold, fuel)
      case None => Err("Stack overflow")
      case Some(t) =>
        if NonNegative(g) then TotalCountsInside(g, Gold, fuel); Ok(t - 1) else Ok(t - 1)
  }

  // ------------------------------------------------------------ part 1

  /** What `CountContainedByBags` returns and leaves behind: the count, the
      `BagsAccountedFor` list after the call (as a set), and the bags the call
      recursed into. */
  datatype Visit = Visit(count: nat, accounted: set<string>, visited: set<string>)

  /** Every parent of a bag in `s` is in `s`. */
  predicate UpClosed(g: Graph, s: set<string>) {
    forall x, k :: x in s && 0 <= k < |Parents(g, x)| ==> Parents(g, x)[k] in s
  }

  /** `b.CountContainedByBags(acc)`: count `b` if it is new, add it, then
      recurse into every bag containing it, whether or not `b` was new. */
  function CountUp(g: Graph, b: string, acc: set<string>, fuel: nat): (r: Option<Visit>)
    ensures r.Some? ==> b in r.value.visited && UpClosed(g, r.value.visited)
    ensures r.Some? ==> r.value.accounted == acc + r.value.visited
    ensures r.Some? ==> r.value.count == |r.value.accounted - acc|
    decreases fuel, 0
  {
    if fuel == 0 then None
    else
      var here := if b in acc then 0 else 1;
      var r :- CountParents(g, Parents(g, b), acc + {b}, fuel - 1);
      NewCount(acc, b, r.accounted);
      Some(Visit(here + r.count, r.accounted, {b} + r.visited))
  }

  /** The `foreach` over `IsContainedByBags`, threading `BagsAccountedFor`. */
  function CountParents(g: Graph, ps: seq<string>, acc: set<string>, fuel: nat): (r: Option<Visit>)
    ensures r.Some? ==> (forall k :: 0 <= k < |ps| ==> ps[k] in r.value.visited) && UpClosed(g, r.value.visited)
    ensures r.Some? ==> r.value.accounted == acc + r.value.visited
    ensures r.Some? ==> r.value.count == |r.value.accounted - acc|
    decreases fuel, |ps|
  {
    if |ps| == 0 then Some(Visit(0, acc, {}))
    else
      var v :- CountUp(g, ps[0], acc, fuel);
      var w :- CountParents(g, ps[1..], v.accounted, fuel);
      assert forall k :: 1 <= k < |ps| ==> ps[k] == ps[1..][k - 1];
      SplitCount(acc, v.accounted, w.accounted);
      Some(Visit(v.count + w.count, w.accounted, v.visited + w.visited))
  }

  lemma NewCount(acc: set<string>, b: string, after: set<string>)
    requires acc + {b} <= after
    ensures |after - acc| == (if b in acc then 0 else 1) + |after - (acc + {b})|
  {
    if b !in acc {
      assert after - acc == (after - (acc + {b})) + {b};
    } else {
      assert after - acc == after - (acc + {b});
    }
  }

  lemma SplitCount(a: set<string>, b: set<string>, c: set<string>)
    requires a <= b <= c
    ensures |c - a| == |b - a| + |c - b|
  {
    assert c - a == (b - a) + (c - b);
    assert (b - a) * (c - b) == {};
  }

  /** The bags visited are the least upward-closed set holding `b`: every
      set that holds `b` and every container of its members holds them all. */
  lemma {:induction false} CountUpLeast(g: Graph, b: string, acc: set<string>, fuel: nat, s: set<string>)
    requires CountUp(g, b, acc, fuel).Some? && b in s && UpClosed(g, s)
    ensures CountUp(g, b, acc, fuel).value.visited <= s
    decreases fuel, 0
  {
    CountParentsLeast(g, Parents(g, b), acc + {b}, fuel - 1, s);
  }

  lemma {:induction false} CountParentsLeast(g: Graph, ps: seq<string>, acc: set<string>, fuel: nat, s: set<string>)
    requires CountParents(g, ps, acc, fuel).Some? && UpClosed(g, s)
    requires forall k :: 0 <= k < |ps| ==> ps[k] in s
    ensures CountParents(g, ps, acc, fuel).value.visited <= s
    decreases fuel, |ps|
  {
    if |ps| > 0 {
      ParentsUnfold(g, ps, acc, fuel);
      var v := CountUp(g, ps[0], acc, fuel).value;
      CountUpLeast(g, ps[0], acc, fuel, s);
      assert forall k :: 0 <= k < |ps| - 1 ==> ps[1..][k] == ps[k + 1];
      CountParentsLeast(g, ps[1..], v.accounted, fuel, s);
    }
  }

  /** The bags the loop visits are those of its first call and of the rest. */
  lemma ParentsUnfold(g: Graph, ps: seq<string>, acc: set<string>, fuel: nat)
    requires |ps| > 0 && CountParents(g, ps, acc, fuel).Some?
    ensures CountUp(g, ps[0], acc, fuel).Some?
    ensures var v := CountUp(g, ps[0], acc, fuel).value;
      && CountParents(g, ps[1..], v.accounted, fuel).Some?
      && CountParents(g, ps, acc, fuel).value.visited == v.visited + CountParents(g, ps[1..], v.accounted, fuel).value.visited
  {
  }


  /** Part 1: with the shiny gold bag accounted for up front, the count is the
      number of other bags that can eventually hold it. */
  lemma Part1Counts(g: Graph, fuel: nat)
    requires CountUp(g, Gold, {Gold}, fuel).Some?
    ensures var v := CountUp(g, Gold, {Gold}, fuel).value;
            v.count == |v.visited - {Gold}|
  {
  }

  // ------------------------------------------------------------ part 2

  /** `CountTotalContainBags`: the bag itself plus, for each content, its
      count times that bag's total. */
  function Total(g: Graph, b: string, fuel: nat): (r: Option<int>)
    decreases fuel, 0
  {
    if fuel == 0 then None
    else
      var inner :- TotalOf(g, Children(g, b), fuel - 1);
      Some(1 + inner)
  }

  function TotalOf(g: Graph, cs: seq<(string, int)>, fuel: nat): (r: Option<int>)
    decreases fuel, |cs|
  {
    if |cs| == 0 then Some(0)
    else
      var t :- Total(g, cs[0].0, fuel);
      var rest :- TotalOf(g, cs[1..], fuel);
      Some(cs[0].1 * t + rest)
  }

  /** Reference: every bag inside `b`, listed once per physical bag. */
  function Inside(g: Graph, b: string, fuel: nat): (r: Option<seq<string>>)
    decreases fuel, 0
  {
    if fuel == 0 then None
    else InsideOf(g, Children(g, b), fuel - 1)
  }

  function InsideOf(g: Graph, cs: seq<(string, int)>, fuel: nat): (r: Option<seq<string>>)
    decreases fuel, |cs|
  {
    if |cs| == 0 then Some([])
    else
      var one :- Inside(g, cs[0].0, fuel);
      var rest :- InsideOf(g, cs[1..], fuel);
      Some(Repeat([cs[0].0] + one, cs[0].1) + rest)
  }

  /** `w` copies of `xs` one after another (none for `w <= 0`). */
  function Repeat(xs: seq<string>, w: int): (r: seq<string>)
    ensures |r| == (if w <= 0 then 0 else w * |xs|)
    decreases w
  {
    if w <= 0 then [] else xs + Repeat(xs, w - 1)
  }

  /** With non-negative counts, the weighted total is one more than the number
      of bags physically inside. */
  lemma {:induction false} TotalCountsInside(g: Graph, b: string, fuel: nat)
    requires NonNegative(g)
    ensures Total(g, b, fuel).Some? <==> Inside(g, b, fuel).Some?
    ensures Total(g, b, fuel).Some? ==> Total(g, b, fuel).value == 1 + |Inside(g, b, fuel).value|
    decreases fuel, 0
  {
    if fuel > 0 {
      TotalOfCountsInside(g, Children(g, b), fuel - 1);
    }
  }

  lemma {:induction false} TotalOfCountsInside(g: Graph, cs: seq<(string, int)>, fuel: nat)
    requires NonNegative(g) && forall k :: 0 <= k < |cs| ==> cs[k].1 >= 0
    ensures TotalOf(g, cs, fuel).Some? <==> InsideOf(g, cs, fuel).Some?
    ensures TotalOf(g, cs, fuel).Some? ==> TotalOf(g, cs, fuel).value == |InsideOf(g, cs, fuel).value|
    decreases fuel, |cs|
  {
    if |cs| > 0 {
      TotalCountsInside(g, cs[0].0, fuel);
      TotalOfCountsInside(g, cs[1..], fuel);
    }
  }

  predicate NonNegative(g: Graph) {
    forall b, k :: b in g.contains && 0 <= k < |g.contains[b]| ==> g.contains[b][k].1 >= 0
  }
}
