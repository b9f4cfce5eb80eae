/** Day 22, Crab Combat: two players each draw the top card of their deck;
    the higher card wins the round and its owner puts both cards at the
    bottom of their deck, their own card first. A tie goes to player 2 (the
    original only tests `p1card > p2card`). Part 1 plays until a deck is
    empty; part 2 plays Recursive Combat, where a player holding at least
    as many cards as the value just drawn settles the round in a sub-game
    on copies of the next cards, and a deck seen before ends the game in
    player 1's favour.

    Neither game is known to end in the original; here each round costs one
    unit of `fuel` and `None` means the fuel ran out. The original recognises
    a previous deck by its `HashCode`; the model keeps the decks themselves
    (a hash collision would end a game early, which the model leaves out). */
module Day22 {
  import opened Wrappers
  import opened Strings
  import Seqs

  type Deck = seq<int>

  // ---------------------------------------------------------------- parsing

  /** The `foreach` of `ParseInput` from `lines` on: lines mentioning
      `Player` are skipped, a blank line switches to player 2 for good, and
      every other line is a card for the current player. */
  function ParseFrom(lines: seq<string>, isPlayer1: bool, p1: Deck, p2: Deck): (r: Result<(Deck, Deck)>)
    decreases |lines|
  {
    if |lines| == 0 then Ok((p1, p2))
    else
      var line := lines[0];
      if Contains(line, "Player", false) then ParseFrom(lines[1..], isPlayer1, p1, p2)
      else if IsBlank(line) then ParseFrom(lines[1..], false, p1, p2)
      else match ParseInt32(line)
        case None => Err("Input string was not in a correct format.")
        case Some(c) =>
          if isPlayer1 then ParseFrom(lines[1..], isPlayer1, p1 + [c], p2)
          else ParseFrom(lines[1..], isPlayer1, p1, p2 + [c])
  }

  function ParseInput(lines: seq<string>): Result<(Deck, Deck)> {
    ParseFrom(lines, true, [], [])
  }

  /** The puzzle's input layout for two decks of positive cards. */
  function Render(d1: Deck, d2: Deck): seq<string>
    requires forall k :: 0 <= k < |d1| ==> d1[k] >= 0
    requires forall k :: 0 <= k < |d2| ==> d2[k] >= 0
  {
    ["Player 1:"] + Cards(d1) + [""] + ["Player 2:"] + Cards(d2)
  }

  function Cards(d: Deck): (r: seq<string>)
    requires forall k :: 0 <= k < |d| ==> d[k] >= 0
    ensures |r| == |d| && forall k :: 0 <= k < |d| ==> r[k] == NatToString(d[k])
  {
    seq(|d|, k requires 0 <= k < |d| => NatToString(d[k]))
  }

  lemma HeaderLines(p: string)
    requires p == "Player 1:" || p == "Player 2:"
    ensures Contains(p, "Player", false)
  {
    ContainsIff(p, "Player", false);
    assert MatchesAt(p, 0, "Player", false);
  }

  /** A rendered card is neither a header nor blank, and parses back. */
  lemma CardLine(n: nat)
    requires n < 0x8000_0000
    ensures !Contains(NatToString(n), "Player", false)
    ensures !IsBlank(NatToString(n))
    ensures ParseInt32(NatToString(n)) == Some(n)
  {
    var s := NatToString(n);
    DigitsValueOfNatToString(n);
    ContainsIff(s, "Player", false);
    forall i: nat ensures !MatchesAt(s, i, "Player", false) {
      if i + 6 <= |s| {
        assert s[i + 0] != "Player"[0];
      }
    }
    assert !IsWhiteSpace(s[0]);
  }

  /** The decks after `cards` go to the current player. */
  function Deal(isPlayer1: bool, p1: Deck, p2: Deck, cards: Deck): (Deck, Deck) {
    if isPlayer1 then (p1 + cards, p2) else (p1, p2 + cards)
  }

  lemma DealTwice(isPlayer1: bool, p1: Deck, p2: Deck, d: Deck)
    requires |d| > 0
    ensures var q := Deal(isPlayer1, p1, p2, [d[0]]);
      Deal(isPlayer1, q.0, q.1, d[1..]) == Deal(isPlayer1, p1, p2, d)
  {
    assert [d[0]] + d[1..] == d;
    assert p1 + [d[0]] + d[1..] == p1 + d && p2 + [d[0]] + d[1..] == p2 + d;
  }

  /** A card line goes to the current player. */
  lemma ParseCard(c: int, rest: seq<string>, isPlayer1: bool, p1: Deck, p2: Deck)
    requires 0 <= c < 0x8000_0000
    ensures var q := Deal(isPlayer1, p1, p2, [c]);
      ParseFrom([NatToString(c)] + rest, isPlayer1, p1, p2) == ParseFrom(rest, isPlayer1, q.0, q.1)
  {
    CardLine(c);
    var lines := [NatToString(c)] + rest;
    assert lines[0] == NatToString(c) && lines[1..] == rest;
  }

  lemma CardsCons(d: Deck, rest: seq<string>)
    requires |d| > 0 && forall k :: 0 <= k < |d| ==> 0 <= d[k] < 0x8000_0000
    ensures Cards(d) + rest == [NatToString(d[0])] + (Cards(d[1..]) + rest)
  {
    assert Cards(d) == [NatToString(d[0])] + Cards(d[1..]);
  }

  lemma {:induction false} ParseCards(rest: seq<string>, d: Deck, isPlayer1: bool, p1: Deck, p2: Deck)
    requires forall k :: 0 <= k < |d| ==> 0 <= d[k] < 0x8000_0000
    ensures var q := Deal(isPlayer1, p1, p2, d);
      ParseFrom(Cards(d) + rest, isPlayer1, p1, p2) == ParseFrom(rest, isPlayer1, q.0, q.1)
    decreases |d|
  {
    if |d| == 0 {
      assert Cards(d) + rest == rest;
      assert p1 + d == p1 && p2 + d == p2;
    } else {
      var q := Deal(isPlayer1, p1, p2, [d[0]]);
      CardsCons(d, rest);
      ParseCard(d[0], Cards(d[1..]) + rest, isPlayer1, p1, p2);
      ParseCards(rest, d[1..], isPlayer1, q.0, q.1);
      DealTwice(isPlayer1, p1, p2, d);
    }
  }

  /** Parsing the rendered layout gives both decks back. */
  lemma ParseRender(d1: Deck, d2: Deck)
    requires forall k :: 0 <= k < |d1| ==> 0 <= d1[k] < 0x8000_0000
    requires forall k :: 0 <= k < |d2| ==> 0 <= d2[k] < 0x8000_0000
    ensures ParseInput(Render(d1, d2)) == Ok((d1, d2))
  {
    var tail := ["Player 2:"] + Cards(d2);
    var lines := Render(d1, d2);
    var mid := [""] + tail;
    assert ParseFrom(lines, true, [], []) == ParseFrom(Cards(d1) + mid, true, [], []) by {
      HeaderLines("Player 1:");
      assert lines == ["Player 1:"] + (Cards(d1) + mid);
      assert lines[1..] == Cards(d1) + mid;
    }
    assert ParseFrom(Cards(d1) + mid, true, [], []) == ParseFrom(mid, true, d1, []) by {
      ParseCards(mid, d1, true, [], []);
      assert [] + d1 == d1;
    }
    assert ParseFrom(mid, true, d1, []) == ParseFrom(tail, false, d1, []) by {
      assert !Contains("", "Player", false);
      assert IsBlank("");
      assert mid[0] == "" && mid[1..] == tail;
    }
    assert ParseFrom(tail, false, d1, []) == ParseFrom(Cards(d2) + [], false, d1, []) by {
      HeaderLines("Player 2:");
      assert tail[1..] == Cards(d2) + [];
    }
    ParseCards([], d2, false, d1, []);
    assert [] + d2 == d2;
  }

  // ---------------------------------------------------------------- combat

  /** One round of Combat: the higher card's owner takes both, own card
      first; a tie goes to player 2. */
  function Round(d1: Deck, d2: Deck): (r: (Deck, Deck))
    requires |d1| > 0 && |d2| > 0
  {
    if d1[0] > d2[0] then (d1[1..] + [d1[0], d2[0]], d2[1..])
    else (d1[1..], d2[1..] + [d2[0], d1[0]])
  }

  /** A round moves the two drawn cards to the bottom of one deck and
      keeps every card: the card count and the cards are conserved. */
  lemma RoundConserves(d1: Deck, d2: Deck)
    requires |d1| > 0 && |d2| > 0
    ensures var (e1, e2) := Round(d1, d2);
      && |e1| + |e2| == |d1| + |d2|
      && multiset(e1 + e2) == multiset(d1 + d2)
      && (d1[0] > d2[0] <==> |e1| == |d1| + 1)
      && (d1[0] <= d2[0] <==> |e2| == |d2| + 1)
  {
    AwardConserves(d1, d2, if d1[0] > d2[0] then 1 else 2);
  }


  /** `PlayCombatGame`'s loop for at most `fuel` rounds: the final decks. */
  function Combat(d1: Deck, d2: Deck, fuel: nat): (r: Option<(Deck, Deck)>)
    ensures r.Some? ==> |r.value.0| == 0 || |r.value.1| == 0
    ensures r.Some? ==> multiset(r.value.0 + r.value.1) == multiset(d1 + d2)
    decreases fuel
  {
    if |d1| == 0 || |d2| == 0 then Some((d1, d2))
    else if fuel == 0 then None
    else
      RoundConserves(d1, d2);
      var (e1, e2) := Round(d1, d2);
      Combat(e1, e2, fuel - 1)
  }

  /** `CalculateScore`: the bottom card times 1, the next times 2, and so on
      up to the top card times the deck size. */
  function Score(d: Deck): int {
    if |d| == 0 then 0 else d[0] * |d| + Score(d[1..])
  }

  /** `CalculateScore` as the original's loop. */
  method CalculateScore(deck: Deck) returns (score: int)
    ensures score == Score(deck)
  {
    score := 0;
    var i := 0;
    while i < |deck|
      invariant 0 <= i <= |deck|
      invariant score + Score(deck[i..]) == Score(deck)
    {
      assert deck[i..][1..] == deck[i + 1..];
      score := score + deck[i] * (|deck| - i);
      i := i + 1;
    }
    assert deck[i..] == [];
  }

  /** Adding a card under a deck adds that card once and every card above
      it once more. */
  lemma {:induction false} ScoreAppend(d: Deck, c: int)
    ensures Score(d + [c]) == Score(d) + Seqs.Sum(d) + c
  {
    if |d| == 0 {
      assert [] + [c] == [c];
      assert [c][1..] == [];
    } else {
      assert (d + [c])[1..] == d[1..] + [c];
      ScoreAppend(d[1..], c);
      assert Seqs.Sum(d) == d[0] + Seqs.Sum(d[1..]);
    }
  }

  /** Part 1: the winner's score; the winner is player 1 if they hold cards. */
  function Part1(lines: seq<string>, fuel: nat): (r: Result<int>)
    ensures r.Ok? <==> ParseInput(lines).Ok?
                       && Combat(ParseInput(lines).value.0, ParseInput(lines).value.1, fuel).Some?
    ensures r.Ok? ==> var (d1, d2) := ParseInput(lines).value;
      && Combat(d1, d2, fuel).Some?
      && exists w :: w in {Combat(d1, d2, fuel).value.0, Combat(d1, d2, fuel).value.1}
           && multiset(w) == multiset(d1 + d2) && r.value == Score(w)
  {
    var (d1, d2) :- ParseInput(lines);
    match Combat(d1, d2, fuel)
    case None => Err("The game did not end.")
    case Some((e1, e2)) =>
      var w := if |e1| > 0 then e1 else e2;
      assert multiset(w) == multiset(e1 + e2) by {
        if |e1| > 0 {
          assert e2 == [] && e1 + e2 == e1;
        } else {
          assert e1 + e2 == e2;
        }
      }
      Ok(Score(w))
  }

  // ---------------------------------------------------------------- recursive combat

  /** The decks each player has held at the start of a round of this game. */
  datatype History = History(seen1: set<Deck>, seen2: set<Deck>)

  const NoHistory := History({}, {})

  datatype Outcome = Outcome(winner: nat, deck: Deck)

  /** `HasCardsRemainingForSubGame`. */
  predicate EnoughCards(card: int, rest: Deck) {
    |rest| >= card
  }

  /** `Take(n)`: the first `n` cards, none for `n <= 0`. */
  function Take(d: Deck, n: int): (r: Deck)
    requires n <= |d|
    ensures |r| == if n <= 0 then 0 else n
  {
    if n <= 0 then [] else d[..n]
  }

  /** The decks after a round whose winner is `winner`: the winner puts its
      own card first. */
  function Award(d1: Deck, d2: Deck, winner: nat): (r: (Deck, Deck))
    requires |d1| > 0 && |d2| > 0
  {
    if winner == 1 then (d1[1..] + [d1[0], d2[0]], d2[1..])
    else (d1[1..], d2[1..] + [d2[0], d1[0]])
  }

  /** The high-card round is an award to the higher card's owner. */
  lemma RoundIsAward(d1: Deck, d2: Deck)
    requires |d1| > 0 && |d2| > 0
    ensures Round(d1, d2) == Award(d1, d2, if d1[0] > d2[0] then 1 else 2)
  {
  }

  /** `PlayRecursiveGame` for at most `fuel` rounds, sub-games included:
      the winner and the deck it is scored on. A deck either player held
      before in this game ends it for player 1, scored on player 1's deck. */
  function Recursive(d1: Deck, d2: Deck, h: History, fuel: nat): (r: Option<Outcome>)
    ensures r.Some? ==> r.value.winner == 1 || r.value.winner == 2
    decreases fuel
  {
    if |d1| == 0 || |d2| == 0 then Some(if |d1| > 0 then Outcome(1, d1) else Outcome(2, d2))
    else if d1 in h.seen1 || d2 in h.seen2 then Some(Outcome(1, d1))
    else if fuel == 0 then None
    else
      var h' := History(h.seen1 + {d1}, h.seen2 + {d2});
      var c1, c2 := d1[0], d2[0];
      if EnoughCards(c1, d1[1..]) && EnoughCards(c2, d2[1..]) then
        match Recursive(Take(d1[1..], c1), Take(d2[1..], c2), NoHistory, fuel - 1)
        case None => None
        case Some(sub) =>
          var (e1, e2) := Award(d1, d2, sub.winner);
          Recursive(e1, e2, h', fuel - 1)
      else
        var (e1, e2) := Round(d1, d2);
        Recursive(e1, e2, h', fuel - 1)
  }

  /** Any award conserves the cards. */
  lemma AwardConserves(d1: Deck, d2: Deck, winner: nat)
    requires |d1| > 0 && |d2| > 0
    ensures var (e1, e2) := Award(d1, d2, winner);
      |e1| + |e2| == |d1| + |d2| && multiset(e1 + e2) == multiset(d1 + d2)
  {
    var (e1, e2) := Award(d1, d2, winner);
    TakeTop(d1);
    TakeTop(d2);
    if winner == 1 {
      assert multiset(e1) == multiset(d1[1..]) + multiset{d1[0]} + multiset{d2[0]};
    } else {
      assert multiset(e2) == multiset(d2[1..]) + multiset{d2[0]} + multiset{d1[0]};
    }
  }

  lemma TakeTop(d: Deck)
    requires |d| > 0
    ensures multiset(d) == multiset(d[1..]) + multiset{d[0]}
  {
    assert d == [d[0]] + d[1..];
  }


  /** A game that ends by emptying a deck is won by the player holding all
      the cards; one that ends on a repeated deck is won by player 1. Either
      way the winning deck holds only cards that were dealt. */
  lemma {:induction false} RecursiveOutcome(d1: Deck, d2: Deck, h: History, fuel: nat)
    requires Recursive(d1, d2, h, fuel).Some?
    ensures var o := Recursive(d1, d2, h, fuel).value;
      o.winner == 2 ==> multiset(o.deck) == multiset(d1 + d2)
    ensures multiset(Recursive(d1, d2, h, fuel).value.deck) <= multiset(d1 + d2)
    decreases fuel
  {
    if |d1| == 0 || |d2| == 0 {
      if |d1| == 0 {
        assert d1 + d2 == d2;
      } else {
        assert d1 + d2 == d1;
      }
    } else if d1 in h.seen1 || d2 in h.seen2 {
      assert multiset(d1 + d2) == multiset(d1) + multiset(d2);
    } else {
      var h' := History(h.seen1 + {d1}, h.seen2 + {d2});
      var c1, c2 := d1[0], d2[0];
      if EnoughCards(c1, d1[1..]) && EnoughCards(c2, d2[1..]) {
        var sub := Recursive(Take(d1[1..], c1), Take(d2[1..], c2), NoHistory, fuel - 1).value;
        var (e1, e2) := Award(d1, d2, sub.winner);
        AwardConserves(d1, d2, sub.winner);
        RecursiveOutcome(e1, e2, h', fuel - 1);
      } else {
        var (e1, e2) := Round(d1, d2);
        RoundConserves(d1, d2);
        RecursiveOutcome(e1, e2, h', fuel - 1);
      }
    }
  }

  /** A deck player 1 (or player 2) held earlier in this game ends it at
      once in player 1's favour, before any card is drawn. */
  lemma RepeatEndsGame(d1: Deck, d2: Deck, h: History, fuel: nat)
    requires |d1| > 0 && |d2| > 0 && (d1 in h.seen1 || d2 in h.seen2)
    ensures Recursive(d1, d2, h, fuel) == Some(Outcome(1, d1))
  {
  }

  /** When a player lacks the cards for a sub-game, the round is decided
      exactly as in Combat. */
  lemma NoSubGameIsCombatRound(d1: Deck, d2: Deck, h: History, fuel: nat)
    requires |d1| > 0 && |d2| > 0 && !(d1 in h.seen1 || d2 in h.seen2) && fuel > 0
    requires !EnoughCards(d1[0], d1[1..]) || !EnoughCards(d2[0], d2[1..])
    ensures Recursive(d1, d2, h, fuel)
      == Recursive(Round(d1, d2).0, Round(d1, d2).1, History(h.seen1 + {d1}, h.seen2 + {d2}), fuel - 1)
  {
  }

  /** A sub-game is played on copies of exactly as many cards as each
      player drew, taken from the top of the rest of the deck. */
  lemma SubGameDecks(d1: Deck, d2: Deck)
    requires |d1| > 0 && |d2| > 0 && d1[0] > 0 && d2[0] > 0
    requires EnoughCards(d1[0], d1[1..]) && EnoughCards(d2[0], d2[1..])
    ensures var s1 := Take(d1[1..], d1[0]);
      |s1| == d1[0] && forall k :: 0 <= k < |s1| ==> s1[k] == d1[k + 1]
    ensures var s2 := Take(d2[1..], d2[0]);
      |s2| == d2[0] && forall k :: 0 <= k < |s2| ==> s2[k] == d2[k + 1]
  {
  }

  /** Part 2: the score of the deck the recursive game's winner holds: all
      the cards dealt when player 2 wins, and never a card that was not
      dealt. */
  function Part2(lines: seq<string>, fuel: nat): (r: Result<int>)
    ensures r.Ok? <==> ParseInput(lines).Ok?
                       && Recursive(ParseInput(lines).value.0, ParseInput(lines).value.1, NoHistory, fuel).Some?
    ensures r.Ok? ==> var (d1, d2) := ParseInput(lines).value;
      && Recursive(d1, d2, NoHistory, fuel).Some?
      && var o := Recursive(d1, d2, NoHistory, fuel).value;
      && r.value == Score(o.deck) && multiset(o.deck) <= multiset(d1 + d2)
      && (o.winner == 2 ==> multiset(o.deck) == multiset(d1 + d2))
  {
    var (d1, d2) :- ParseInput(lines);
    match Recursive(d1, d2, NoHistory, fuel)
    case None => Err("The game did not end.")
    case Some(o) => RecursiveOutcome(d1, d2, NoHistory, fuel); Ok(Score(o.deck))
  }
}
