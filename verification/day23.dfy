/** Day 23, Crab Cups: cups labelled by the digits of the input sit in a
    circle. A move picks up the three cups clockwise of the current cup,
    chooses a destination label (one less than the current label, skipping
    picked-up labels and wrapping round to the highest label), puts the three
    cups back right after the destination in the order they were picked up,
    and makes the cup clockwise of the current cup the new current cup.
    Part 1 plays 100 moves and reads the labels after cup 1; part 2 pads the
    circle to a million cups, plays ten million moves and multiplies the two
    labels after cup 1.

    The original keeps the circle in a singly linked list with a head node
    `First` and no link from the last node back to the first; "clockwise of
    the last node" means `First`. Here that list is the sequence of labels
    read from `First`, and a node is its position. The cyclic view of the
    circle from a position is `Rotate`, the reference every property below is
    stated against. */
module Day23 {
  import opened Wrappers
  import Strings
  import Seqs

  // ---------------------------------------------------------------- the circle

  /** The labels read from the list's head, and the position of the current
      cup. */
  datatype Circle = Circle(cups: seq<int>, current: nat)

  /** The cups the move algorithm works on: at least four cups (so that the
      current cup is never among the three picked up), distinct labels (so
      that a label names one node), and a current cup inside the list. */
  predicate Valid(c: Circle) {
    4 <= |c.cups| && c.current < |c.cups| && Seqs.NoDup(c.cups)
  }

  /** The circle read clockwise starting at position `i`. */
  function Rotate(s: seq<int>, i: nat): (r: seq<int>)
    requires i <= |s|
    ensures |r| == |s| && multiset(r) == multiset(s)
    ensures i < |s| ==> r[0] == s[i]
  {
    assert s == s[..i] + s[i..];
    s[i..] + s[..i]
  }

  /** Reading from the next position is reading from this one with the first
      cup moved to the end. */
  lemma RotateNext(s: seq<int>, i: nat)
    requires i < |s|
    ensures Rotate(s, i + 1) == Rotate(s, i)[1..] + [s[i]]
  {
    assert s[..i + 1] == s[..i] + [s[i]];
    assert s[i..] == [s[i]] + s[i + 1..];
  }

  // ---------------------------------------------------------------- picking up

  /** What `RemoveThreeValuesAfter` leaves behind: the three values it
      returns, the list without them, and the position of the current cup in
      that list. */
  datatype Removal = Removal(picked: seq<int>, rest: seq<int>, at: nat)

  /** `RemoveThreeValuesAfter`: when the current cup has three successors
      they are unlinked; otherwise the removal wraps round past the end of
      the list and the head moves forward past the cups taken from the
      front. */
  function RemoveThreeAfter(cups: seq<int>, c: nat): (r: Removal)
    requires 4 <= |cups| && c < |cups|
    ensures |r.picked| == 3 && |r.rest| == |cups| - 3 && r.at < |r.rest|
  {
    var n := |cups|;
    if c + 3 < n then Removal(cups[c + 1..c + 4], cups[..c + 1] + cups[c + 4..], c)
    else if c == n - 1 then Removal(cups[..3], cups[3..], n - 4)
    else if c == n - 2 then Removal([cups[n - 1]] + cups[..2], cups[2..n - 1], n - 4)
    else Removal(cups[n - 2..] + cups[..1], cups[1..n - 2], n - 4)
  }

  /** The removal in terms of the circle read from the current cup: the
      three cups picked up are the three after it, and the list left behind,
      read from the current cup, is the circle without them. */
  predicate RemovesThree(cups: seq<int>, c: nat, r: Removal)
    requires c < |cups| && r.at <= |r.rest| && |cups| >= 4
  {
    r.picked == Rotate(cups, c)[1..4] && Rotate(r.rest, r.at) == [cups[c]] + Rotate(cups, c)[4..]
  }

  lemma RemovalShape(cups: seq<int>, c: nat)
    requires 4 <= |cups| && c < |cups|
    ensures RemovesThree(cups, c, RemoveThreeAfter(cups, c))
  {
    var n := |cups|;
    if c + 3 < n {
      RemoveInside(cups, c);
    } else if c == n - 1 {
      RemoveWrapOne(cups);
    } else if c == n - 2 {
      RemoveWrapTwo(cups);
    } else {
      RemoveWrapThree(cups);
    }
  }

  lemma RemoveInside(cups: seq<int>, c: nat)
    requires c + 3 < |cups|
    ensures RemovesThree(cups, c, Removal(cups[c + 1..c + 4], cups[..c + 1] + cups[c + 4..], c))
  {
    var turn := Rotate(cups, c);
    var rest := cups[..c + 1] + cups[c + 4..];
    assert turn[1..4] == cups[c + 1..c + 4];
    assert rest[c..] == [cups[c]] + cups[c + 4..];
    assert rest[..c] == cups[..c];
    assert turn[4..] == cups[c + 4..] + cups[..c];
  }

  lemma RemoveWrapOne(cups: seq<int>)
    requires 4 <= |cups|
    ensures RemovesThree(cups, |cups| - 1, Removal(cups[..3], cups[3..], |cups| - 4))
  {
    var n := |cups|;
    var turn := Rotate(cups, n - 1);
    assert turn == [cups[n - 1]] + cups[..n - 1];
    assert turn[1..4] == cups[..3];
    assert cups[3..][n - 4..] == [cups[n - 1]];
    assert cups[3..][..n - 4] == cups[3..n - 1];
    assert turn[4..] == cups[3..n - 1];
  }

  lemma RemoveWrapTwo(cups: seq<int>)
    requires 4 <= |cups|
    ensures RemovesThree(cups, |cups| - 2, Removal([cups[|cups| - 1]] + cups[..2], cups[2..|cups| - 1], |cups| - 4))
  {
    var n := |cups|;
    var turn := Rotate(cups, n - 2);
    assert turn == [cups[n - 2], cups[n - 1]] + cups[..n - 2];
    assert turn[1..4] == [cups[n - 1]] + cups[..2];
    assert cups[2..n - 1][n - 4..] == [cups[n - 2]];
    assert cups[2..n - 1][..n - 4] == cups[2..n - 2];
    assert turn[4..] == cups[2..n - 2];
  }

  lemma RemoveWrapThree(cups: seq<int>)
    requires 4 <= |cups|
    ensures RemovesThree(cups, |cups| - 3, Removal(cups[|cups| - 2..] + cups[..1], cups[1..|cups| - 2], |cups| - 4))
  {
    var n := |cups|;
    var turn := Rotate(cups, n - 3);
    assert turn == [cups[n - 3], cups[n - 2], cups[n - 1]] + cups[..n - 3];
    assert cups[n - 2..] == [cups[n - 2], cups[n - 1]];
    assert cups[..n - 3][0] == cups[0];
    assert turn[1..4] == cups[n - 2..] + cups[..1];
    assert cups[1..n - 2][n - 4..] == [cups[n - 3]];
    assert cups[1..n - 2][..n - 4] == cups[1..n - 3];
    assert turn[4..] == cups[1..n - 3];
  }

  /** Picking up moves cups out of the list and loses none. */
  lemma RemovalConserves(cups: seq<int>, c: nat)
    requires 4 <= |cups| && c < |cups|
    ensures var r := RemoveThreeAfter(cups, c);
      multiset(r.rest) + multiset(r.picked) == multiset(cups)
  {
    var r := RemoveThreeAfter(cups, c);
    RemovalShape(cups, c);
    TurnParts(Rotate(cups, c));
    assert multiset(Rotate(r.rest, r.at)) == multiset(r.rest);
  }

  lemma TurnParts(turn: seq<int>)
    requires |turn| >= 4
    ensures multiset(turn) == multiset([turn[0]] + turn[4..]) + multiset(turn[1..4])
  {
    assert turn == [turn[0]] + turn[1..4] + turn[4..];
  }

  // ---------------------------------------------------------------- the destination

  predicate InRange(d: int, max: int) {
    1 <= d <= max
  }

  /** One pass of the destination loop: one lower, or `max` when that
      leaves `[1, max]`. */
  function Down(d: int, max: int): int {
    if d - 1 < 1 || d - 1 > max then max else d - 1
  }

  /** How many passes of the destination loop lead from `d` to the label
      `l`: counting down to 1, then on from `max`; a start outside
      `[1, max]` goes to `max` first. */
  function Distance(d: int, l: int, max: int): nat
    requires InRange(l, max)
  {
    if !InRange(d, max) then 1 + max - l
    else if l <= d then d - l
    else d + max - l
  }

  lemma DistanceBound(d: int, l: int, max: int)
    requires InRange(l, max)
    ensures Distance(d, l, max) <= max
  {
  }

  /** Every label other than `d` is one pass closer after one pass. */
  lemma DistanceDown(d: int, max: int)
    ensures forall l :: InRange(l, max) && l != d ==> Distance(d, l, max) == 1 + Distance(Down(d, max), l, max)
  {
  }

  /** The destination loop from `d`, allowed `budget` more passes. */
  function SearchFrom(d: int, picked: seq<int>, max: int, budget: nat): (r: Option<int>)
    ensures r.Some? ==> InRange(r.value, max) && r.value !in picked
    ensures r.Some? ==> forall l :: InRange(l, max) && Distance(d, l, max) < Distance(d, r.value, max) ==> l in picked
    ensures r.None? ==> forall l :: InRange(l, max) && Distance(d, l, max) <= budget ==> l in picked
    decreases budget
  {
    if d !in picked && InRange(d, max) then Some(d)
    else if budget == 0 then None
    else
      DistanceDown(d, max);
      SearchFrom(Down(d, max), picked, max, budget - 1)
  }

  /** The destination loop of `Move`, starting one below the current label.
      It ends on the first label of `[1, max]` in counting-down order that
      was not picked up; when every label of `[1, max]` was picked up the
      original loops forever, which is `None` here. */
  function Destination(top: int, picked: seq<int>, max: int): (r: Option<int>)
    ensures r.Some? ==> InRange(r.value, max) && r.value !in picked
    ensures r.Some? ==> forall l :: InRange(l, max) && Distance(top - 1, l, max) < Distance(top - 1, r.value, max) ==> l in picked
    ensures r.None? <==> forall l :: InRange(l, max) ==> l in picked
  {
    var r := SearchFrom(top - 1, picked, max, if max > 0 then max else 0);
    assert r.None? ==> forall l :: InRange(l, max) ==> l in picked by {
      forall l | InRange(l, max) ensures Distance(top - 1, l, max) <= max {
        DistanceBound(top - 1, l, max);
      }
    }
    r
  }

  /** The destination in plain terms: counting down from one below the
      current label, every label passed over was picked up, including those
      passed after wrapping round to `max`. */
  lemma DestinationSkipsPicked(top: int, picked: seq<int>, max: int)
    requires InRange(top - 1, max) && Destination(top, picked, max).Some?
    ensures var d := Destination(top, picked, max).value;
      && (d <= top - 1 ==> forall l :: d < l <= top - 1 ==> l in picked)
      && (d > top - 1 ==> forall l :: 1 <= l <= top - 1 || d < l <= max ==> l in picked)
  {
    var d := Destination(top, picked, max).value;
    forall l | (d <= top - 1 && d < l <= top - 1) || (d > top - 1 && (1 <= l <= top - 1 || d < l <= max))
      ensures l in picked
    {
      assert InRange(l, max) && Distance(top - 1, l, max) < Distance(top - 1, d, max);
    }
  }

  // ---------------------------------------------------------------- putting back

  /** `AddAfter`: a new node right after position `k`. */
  function AddAfter(s: seq<int>, k: nat, v: int): (r: seq<int>)
    requires k < |s|
    ensures |r| == |s| + 1 && r[k + 1] == v
  {
    s[..k + 1] + [v] + s[k + 1..]
  }

  /** The loop `for i = 2 .. 0: AddAfter(destination, removed[i])`: adding
      the last picked cup first. */
  function PutBack(rest: seq<int>, k: nat, picked: seq<int>): (r: seq<int>)
    requires k < |rest| && |picked| == 3
    ensures |r| == |rest| + 3
  {
    AddAfter(AddAfter(AddAfter(rest, k, picked[2]), k, picked[1]), k, picked[0])
  }

  /** Adding after the same node in reverse order leaves the three cups
      right after it in their original order. */
  lemma PutBackInOrder(rest: seq<int>, k: nat, picked: seq<int>)
    requires k < |rest| && |picked| == 3
    ensures PutBack(rest, k, picked) == rest[..k + 1] + picked + rest[k + 1..]
  {
    var s1 := AddAfter(rest, k, picked[2]);
    assert s1[..k + 1] == rest[..k + 1] && s1[k + 1..] == [picked[2]] + rest[k + 1..];
    var s2 := AddAfter(s1, k, picked[1]);
    assert s2[..k + 1] == rest[..k + 1] && s2[k + 1..] == [picked[1], picked[2]] + rest[k + 1..];
    assert picked == [picked[0], picked[1], picked[2]];
  }

  // ---------------------------------------------------------------- removing labels

  /** The list with every label of `drop` left out, in order. */
  function Without(s: seq<int>, drop: seq<int>): seq<int> {
    if |s| == 0 then []
    else (if s[0] in drop then [] else [s[0]]) + Without(s[1..], drop)
  }

  lemma {:induction false} WithoutAppend(a: seq<int>, b: seq<int>, drop: seq<int>)
    ensures Without(a + b, drop) == Without(a, drop) + Without(b, drop)
  {
    if |a| > 0 {
      assert (a + b)[0] == a[0];
      assert (a + b)[1..] == a[1..] + b;
      WithoutAppend(a[1..], b, drop);
      assert Without(a + b, drop) == (if a[0] in drop then [] else [a[0]]) + Without(a[1..] + b, drop);
    } else {
      assert a + b == b;
    }
  }

  lemma {:induction false} WithoutNothing(a: seq<int>, drop: seq<int>)
    requires forall i :: 0 <= i < |a| ==> a[i] !in drop
    ensures Without(a, drop) == a
  {
    if |a| > 0 {
      WithoutNothing(a[1..], drop);
      assert a == [a[0]] + a[1..];
    }
  }

  // ---------------------------------------------------------------- a move

  /** The position of a label, which `Find` looks up in the node map. */
  function Find(s: seq<int>, v: int): (r: Option<nat>)
    ensures r.Some? <==> v in s
    ensures r.Some? ==> r.value < |s| && s[r.value] == v
  {
    if |s| == 0 then None
    else if s[0] == v then Some(0)
    else match Find(s[1..], v)
      case None => None
      case Some(i) => Some(i + 1)
  }

  /** `Move`: pick up, find the destination, put back, advance. A destination
      label that is no cup's label makes `Find` throw. */
  function Move(c: Circle, max: int): (r: Result<Circle>)
    requires Valid(c)
    ensures r.Ok? ==> Valid(r.value) && multiset(r.value.cups) == multiset(c.cups)
    ensures r.Ok? ==> |r.value.cups| == |c.cups|
  {
    var removal := RemoveThreeAfter(c.cups, c.current);
    match Destination(c.cups[c.current], removal.picked, max)
    case None => Err("the destination search never ends")
    case Some(dest) =>
      match Find(removal.rest, dest)
      case None => Err("The given key was not present in the dictionary.")
      case Some(k) =>
        MoveConserves(c, removal, k);
        Ok(Placed(removal, k))
  }

  /** After `PutBack` at position `k`: the new list and the cup clockwise
      of the old current cup as the current cup. */
  function Placed(removal: Removal, k: nat): (r: Circle)
    requires k < |removal.rest| && removal.at < |removal.rest| && |removal.picked| == 3
  {
    var cups := PutBack(removal.rest, k, removal.picked);
    var at := if k < removal.at then removal.at + 3 else removal.at;
    Circle(cups, if at + 1 < |cups| then at + 1 else 0)
  }

  /** When every label of `[1, max]` was picked up, the move fails. */
  lemma MoveStuck(c: Circle, max: int)
    requires Valid(c)
    requires forall l :: InRange(l, max) ==> l in Rotate(c.cups, c.current)[1..4]
    ensures Move(c, max).Err?
  {
    RemovalShape(c.cups, c.current);
  }

  lemma MoveConserves(c: Circle, removal: Removal, k: nat)
    requires Valid(c) && removal == RemoveThreeAfter(c.cups, c.current)
    requires k < |removal.rest|
    ensures var r := Placed(removal, k);
      Valid(r) && multiset(r.cups) == multiset(c.cups) && |r.cups| == |c.cups|
  {
    var rest := removal.rest;
    var cups := PutBack(rest, k, removal.picked);
    PutBackInOrder(rest, k, removal.picked);
    RemovalConserves(c.cups, c.current);
    SpliceConserves(rest, k, removal.picked);
    Seqs.NoDupPermutation(c.cups, cups);
    assert |multiset(cups)| == |multiset(c.cups)|;
  }

  lemma SpliceConserves(rest: seq<int>, k: nat, picked: seq<int>)
    requires k < |rest|
    ensures multiset(rest[..k + 1] + picked + rest[k + 1..]) == multiset(rest) + multiset(picked)
  {
    assert rest == rest[..k + 1] + rest[k + 1..];
  }

  /** No label is both picked up and left behind. */
  lemma PickedApart(c: Circle)
    requires Valid(c)
    ensures var removal := RemoveThreeAfter(c.cups, c.current);
      Apart(removal.rest, removal.picked)
  {
    var removal := RemoveThreeAfter(c.cups, c.current);
    RemovalConserves(c.cups, c.current);
    forall i | 0 <= i < |removal.rest|
      ensures removal.rest[i] !in removal.picked
    {
      var x := removal.rest[i];
      Seqs.NoDupCount(c.cups, x);
      assert multiset(removal.rest)[x] >= 1;
    }
  }

  /** No element of `s` is in `drop`. */
  predicate Apart(s: seq<int>, drop: seq<int>) {
    forall i :: 0 <= i < |s| ==> s[i] !in drop
  }

  /** Dropping the picked cups from a list with the picked cups in the
      middle gives the two sides back. */
  lemma WithoutAround(x: seq<int>, picked: seq<int>, y: seq<int>)
    requires Apart(x, picked) && Apart(y, picked)
    ensures Without(x + picked + y, picked) == x + y
  {
    assert Without(x + picked, picked) == x by {
      WithoutAppend(x, picked, picked);
      WithoutNothing(x, picked);
      WithoutAllDropped(picked, picked);
    }
    assert Without(y, picked) == y by {
      WithoutNothing(y, picked);
    }
    WithoutAppend(x + picked, y, picked);
  }

  /** The list after putting back, the position the old current cup ends
      up at, and the position after it, which becomes the current cup. */
  function Reinserted(rest: seq<int>, picked: seq<int>, k: nat, at: nat): (r: Circle)
    requires k < |rest| && at < |rest| && |picked| == 3
    ensures |r.cups| == |rest| + 3 && r.current < |r.cups|
  {
    var cups := rest[..k + 1] + picked + rest[k + 1..];
    var pos := if k < at then at + 3 else at;
    Circle(cups, if pos + 1 < |cups| then pos + 1 else 0)
  }

  /** Leaving out the picked cups, the list read from the new current cup
      after putting back is the list read from just after the old current
      cup before; here when the destination precedes the current cup. */
  lemma ReinsertedBefore(rest: seq<int>, picked: seq<int>, k: nat, at: nat)
    requires k < at < |rest| && |picked| == 3 && Apart(rest, picked)
    ensures var r := Reinserted(rest, picked, k, at);
      Without(Rotate(r.cups, r.current), picked) == Rotate(rest, at + 1)
  {
    if at + 1 < |rest| {
      var x, y := rest[at + 1..] + rest[..k + 1], rest[k + 1..at + 1];
      BeforeLayout(rest, picked, k, at);
      ApartSlice(rest, picked, at + 1, |rest|);
      ApartSlice(rest, picked, 0, k + 1);
      ApartSlice(rest, picked, k + 1, at + 1);
      ApartAppend(rest[at + 1..], rest[..k + 1], picked);
      WithoutAround(x, picked, y);
      BeforeJoin(rest, k, at);
    } else {
      ReinsertedBeforeLast(rest, picked, k);
    }
  }

  lemma BeforeLayout(rest: seq<int>, picked: seq<int>, k: nat, at: nat)
    requires k < at && at + 1 < |rest| && |picked| == 3
    ensures var r := Reinserted(rest, picked, k, at);
      Rotate(r.cups, r.current) == (rest[at + 1..] + rest[..k + 1]) + picked + rest[k + 1..at + 1]
  {
    var cups := Reinserted(rest, picked, k, at).cups;
    assert cups[at + 4..] == rest[at + 1..];
    assert cups[..at + 4] == rest[..k + 1] + picked + rest[k + 1..at + 1];
  }

  lemma BeforeJoin(rest: seq<int>, k: nat, at: nat)
    requires k < at && at + 1 < |rest|
    ensures (rest[at + 1..] + rest[..k + 1]) + rest[k + 1..at + 1] == Rotate(rest, at + 1)
  {
    assert rest[..k + 1] + rest[k + 1..at + 1] == rest[..at + 1];
  }

  /** `ReinsertedBefore` when the current cup is the last one. */
  lemma ReinsertedBeforeLast(rest: seq<int>, picked: seq<int>, k: nat)
    requires k < |rest| - 1 && |picked| == 3 && Apart(rest, picked)
    ensures var r := Reinserted(rest, picked, k, |rest| - 1);
      Without(Rotate(r.cups, r.current), picked) == rest
  {
    var r := Reinserted(rest, picked, k, |rest| - 1);
    var x, y := rest[..k + 1], rest[k + 1..];
    assert r.current == 0;
    assert Rotate(r.cups, r.current) == x + picked + y;
    ApartSlice(rest, picked, 0, k + 1);
    ApartSlice(rest, picked, k + 1, |rest|);
    WithoutAround(x, picked, y);
    assert x + y == rest;
  }

  /** As `ReinsertedBefore`, when the destination is the current cup or
      follows it. */
  lemma ReinsertedAfter(rest: seq<int>, picked: seq<int>, k: nat, at: nat)
    requires at <= k < |rest| && |picked| == 3 && Apart(rest, picked)
    ensures var r := Reinserted(rest, picked, k, at);
      Without(Rotate(r.cups, r.current), picked) == Rotate(rest, at + 1)
  {
    var x, y := rest[at + 1..k + 1], rest[k + 1..] + rest[..at + 1];
    AfterLayout(rest, picked, k, at);
    ApartSlice(rest, picked, at + 1, k + 1);
    ApartSlice(rest, picked, k + 1, |rest|);
    ApartSlice(rest, picked, 0, at + 1);
    ApartAppend(rest[k + 1..], rest[..at + 1], picked);
    WithoutAround(x, picked, y);
    AfterJoin(rest, k, at);
  }

  lemma AfterLayout(rest: seq<int>, picked: seq<int>, k: nat, at: nat)
    requires at <= k < |rest| && |picked| == 3
    ensures var r := Reinserted(rest, picked, k, at);
      Rotate(r.cups, r.current) == rest[at + 1..k + 1] + picked + (rest[k + 1..] + rest[..at + 1])
  {
    var r := Reinserted(rest, picked, k, at);
    assert r.current == at + 1;
    assert r.cups[at + 1..] == rest[at + 1..k + 1] + picked + rest[k + 1..];
    assert r.cups[..at + 1] == rest[..at + 1];
  }

  lemma AfterJoin(rest: seq<int>, k: nat, at: nat)
    requires at <= k < |rest|
    ensures rest[at + 1..k + 1] + (rest[k + 1..] + rest[..at + 1]) == Rotate(rest, at + 1)
  {
    assert rest[at + 1..k + 1] + rest[k + 1..] == rest[at + 1..];
  }

  lemma ApartSlice(s: seq<int>, drop: seq<int>, i: nat, j: nat)
    requires i <= j <= |s| && Apart(s, drop)
    ensures Apart(s[i..j], drop)
  {
    forall t | 0 <= t < j - i ensures s[i..j][t] !in drop {
      assert s[i..j][t] == s[i + t];
    }
  }

  lemma ApartAppend(a: seq<int>, b: seq<int>, drop: seq<int>)
    requires Apart(a, drop) && Apart(b, drop)
    ensures Apart(a + b, drop)
  {
    forall t | 0 <= t < |a + b| ensures (a + b)[t] !in drop {
      if t >= |a| {
        assert (a + b)[t] == b[t - |a|];
      }
    }
  }

  /** The old current cup is the last one read from the new current cup. */
  lemma ReinsertedAdvances(rest: seq<int>, picked: seq<int>, k: nat, at: nat)
    requires k < |rest| && at < |rest| && |picked| == 3
    ensures var r := Reinserted(rest, picked, k, at);
      Rotate(r.cups, r.current)[|r.cups| - 1] == rest[at]
  {
    var r := Reinserted(rest, picked, k, at);
    var pos := if k < at then at + 3 else at;
    assert r.cups[pos] == rest[at];
    if pos + 1 < |r.cups| {
      assert Rotate(r.cups, pos + 1)[|r.cups| - 1] == r.cups[..pos + 1][pos];
    }
  }

  /** `Move` in terms of what it is made of. */
  lemma MoveIsReinserted(c: Circle, max: int) returns (k: nat)
    requires Valid(c) && Move(c, max).Ok?
    ensures var removal := RemoveThreeAfter(c.cups, c.current);
      var dest := Destination(c.cups[c.current], removal.picked, max).value;
      && k < |removal.rest| && removal.rest[k] == dest
      && Move(c, max).value == Reinserted(removal.rest, removal.picked, k, removal.at)
  {
    var removal := RemoveThreeAfter(c.cups, c.current);
    var dest := Destination(c.cups[c.current], removal.picked, max).value;
    k := Find(removal.rest, dest).value;
    PutBackInOrder(removal.rest, k, removal.picked);
  }

  /** What putting back does, on the list left behind. */
  lemma ReinsertedEffect(rest: seq<int>, picked: seq<int>, k: nat, at: nat)
    requires k < |rest| && at < |rest| && |picked| == 3 && Apart(rest, picked)
    ensures var r := Reinserted(rest, picked, k, at);
      && r.cups[k] == rest[k] && r.cups[k + 1..k + 4] == picked
      && Rotate(r.cups, r.current)[|r.cups| - 1] == rest[at]
      && Without(Rotate(r.cups, r.current), picked) == Rotate(rest, at)[1..] + [rest[at]]
  {
    ReinsertedAdvances(rest, picked, k, at);
    if k < at {
      ReinsertedBefore(rest, picked, k, at);
    } else {
      ReinsertedAfter(rest, picked, k, at);
    }
    RotateNext(rest, at);
  }

  /** What a move does to the circle, in terms of the circle before it:
      the destination is followed by the three cups that followed the old
      current cup, in their order; the new current cup is the one clockwise
      of the old one; and leaving out the three picked-up cups, the circle
      read from the new current cup is the old circle read from just after
      the picked-up cups, ending with the old current cup. */
  lemma MoveEffect(c: Circle, max: int)
    requires Valid(c) && Move(c, max).Ok?
    ensures var after := Move(c, max).value;
      var picked := RemoveThreeAfter(c.cups, c.current).picked;
      var dest := Destination(c.cups[c.current], picked, max).value;
      && picked == Rotate(c.cups, c.current)[1..4]
      && (exists j :: 0 <= j && j + 4 <= |after.cups| && after.cups[j] == dest && after.cups[j + 1..j + 4] == picked)
      && Rotate(after.cups, after.current)[|after.cups| - 1] == c.cups[c.current]
      && Without(Rotate(after.cups, after.current), picked) == Rotate(c.cups, c.current)[4..] + [c.cups[c.current]]
  {
    var removal := RemoveThreeAfter(c.cups, c.current);
    var k := MoveIsReinserted(c, max);
    RemovalShape(c.cups, c.current);
    PickedApart(c);
    ReinsertedEffect(removal.rest, removal.picked, k, removal.at);
  }


  /** A list whose every label is dropped leaves nothing. */
  lemma {:induction false} WithoutAllDropped(s: seq<int>, drop: seq<int>)
    requires forall i :: 0 <= i < |s| ==> s[i] in drop
    ensures Without(s, drop) == []
  {
    if |s| > 0 {
      WithoutAllDropped(s[1..], drop);
    }
  }

  /** `k` moves in a row; the first failing move ends the game. */
  function Moves(c: Circle, max: int, k: nat): (r: Result<Circle>)
    requires Valid(c)
    ensures r.Ok? ==> Valid(r.value) && multiset(r.value.cups) == multiset(c.cups)
    ensures k == 0 ==> r == Ok(c)
    decreases k
  {
    if k == 0 then Ok(c)
    else
      var next :- Move(c, max);
      Moves(next, max, k - 1)
  }

  // ---------------------------------------------------------------- reading the result

  /** Part 1's loop: the labels at positions `one + 1, one + 2, …` taken
      round the list, where `one` is `IndexOf(1)` (-1 when no cup is 1). */
  function LabelsAfterOne(cups: seq<int>): (r: seq<int>)
    requires |cups| > 0
    ensures |r| == |cups| - 1
  {
    var one := match Find(cups, 1) case Some(p) => p as int case None => -1;
    seq(|cups| - 1, i requires 0 <= i < |cups| - 1 => cups[(i + 1 + one) % |cups|])
  }

  /** With a cup labelled 1 the labels read are the circle clockwise of it. */
  lemma LabelsAfterOneRotate(cups: seq<int>, p: nat)
    requires p < |cups| && cups[p] == 1 && Seqs.NoDup(cups)
    ensures LabelsAfterOne(cups) == Rotate(cups, p)[1..]
  {
    var n := |cups|;
    assert Find(cups, 1) == Some(p);
    var r := LabelsAfterOne(cups);
    var turn := Rotate(cups, p);
    forall i | 0 <= i < n - 1
      ensures r[i] == turn[i + 1]
    {
      WrapOnce(i + 1 + p, n);
      RotateAt(cups, p, i + 1);
    }
  }

  /** A number below twice `n` loses `n` at most once to the remainder. */
  lemma WrapOnce(a: int, n: int)
    requires 0 <= a < 2 * n
    ensures a % n == if a < n then a else a - n
  {
    if a >= n {
      assert a == n + (a - n);
    }
  }

  lemma RotateAt(s: seq<int>, p: nat, i: nat)
    requires p < |s| && i < |s|
    ensures Rotate(s, p)[i] == if p + i < |s| then s[p + i] else s[p + i - |s|]
  {
  }

  /** The decimal renderings of the labels, one after another. */
  function Concat(labels: seq<int>): (r: string)
    ensures (forall i :: 0 <= i < |labels| ==> 0 <= labels[i] <= 9) ==>
      |r| == |labels| && forall i :: 0 <= i < |labels| ==> r[i] == Strings.DigitChar(labels[i])
  {
    if |labels| == 0 then ""
    else
      var head := Strings.IntToString(labels[0]);
      assert 0 <= labels[0] <= 9 ==> head == [Strings.DigitChar(labels[0])];
      head + Concat(labels[1..])
  }

  /** Part 2's reading: the two labels clockwise of cup 1, multiplied;
      `Find(1)` throws when no cup is labelled 1. */
  function StarProduct(cups: seq<int>): (r: Result<int>)
    requires |cups| > 0
    ensures r.Ok? <==> 1 in cups
  {
    match Find(cups, 1)
    case None => Err("The given key was not present in the dictionary.")
    case Some(p) =>
      var first := if p + 1 < |cups| then p + 1 else 0;
      var second := if first + 1 < |cups| then first + 1 else 0;
      Ok(cups[first] * cups[second])
  }

  /** The two labels multiplied are the two cups clockwise of cup 1. */
  lemma StarProductRotate(cups: seq<int>, p: nat)
    requires p < |cups| && cups[p] == 1 && Seqs.NoDup(cups) && |cups| >= 3
    ensures StarProduct(cups) == Ok(Rotate(cups, p)[1] * Rotate(cups, p)[2])
  {
    assert Find(cups, 1) == Some(p);
  }

  // ---------------------------------------------------------------- input

  /** `char.GetNumericValue` cast to `int`, on ASCII: a digit's value, and
      -1 for any other character. */
  function Labels(s: string): (r: seq<int>)
    ensures |r| == |s|
    ensures forall i :: 0 <= i < |s| ==> (Strings.IsDigit(s[i]) ==> r[i] == Strings.DigitValue(s[i])) && (!Strings.IsDigit(s[i]) ==> r[i] == -1)
  {
    seq(|s|, i requires 0 <= i < |s| => if Strings.IsDigit(s[i]) then Strings.DigitValue(s[i]) as int else -1)
  }

  const Million: int := 1000000

  /** The padding loop from `i`: the labels `i + 1, …, 1000000`. */
  function PadFrom(i: int): (r: seq<int>)
    ensures |r| == if i < Million then Million - i else 0
    ensures forall j :: 0 <= j < |r| ==> r[j] == i + 1 + j
    decreases Million - i
  {
    if i < Million then [i + 1] + PadFrom(i + 1) else []
  }

  /** `PadCupsToMillion`: the labels after the input's largest label up to a
      million, appended. */
  function PadCupsToMillion(cups: seq<int>): (r: seq<int>)
    requires |cups| > 0
    ensures |r| == |cups| + (if Seqs.Max(cups) < Million then Million - Seqs.Max(cups) else 0)
    ensures r[..|cups|] == cups
    ensures forall j :: |cups| <= j < |r| ==> r[j] == Seqs.Max(cups) + 1 + (j - |cups|)
  {
    cups + PadFrom(Seqs.Max(cups))
  }

  /** Cups labelled `1..n` once each become cups labelled `1..1000000` once
      each. */
  lemma PaddedLabels(cups: seq<int>)
    requires 0 < |cups| <= Million && Seqs.NoDup(cups)
    requires forall i :: 0 <= i < |cups| ==> 1 <= cups[i] <= |cups|
    ensures var r := PadCupsToMillion(cups);
      |r| == Million && Seqs.NoDup(r) && forall i :: 0 <= i < |r| ==> 1 <= r[i] <= Million
  {
    var n := |cups|;
    var m := Seqs.Max(cups);
    assert m >= n by {
      var labels := set x | x in cups;
      var upTo := set x | x in UpTo(m);
      Seqs.CardOfNoDup(cups);
      Seqs.CardOfNoDup(UpTo(m));
      forall x | x in labels ensures x in upTo {
        assert UpTo(m)[x - 1] == x;
      }
      Seqs.SubsetCard(labels, upTo);
    }
    Seqs.NoDupAppend(cups, PadFrom(m));
  }

  /** The labels `1, …, m`. */
  function UpTo(m: int): (r: seq<int>)
    ensures |r| == if m > 0 then m else 0
    ensures forall i :: 0 <= i < |r| ==> r[i] == i + 1
    ensures Seqs.NoDup(r) && forall x :: x in r ==> 1 <= x <= m
  {
    seq(if m > 0 then m else 0, i requires 0 <= i => i + 1)
  }

  // ---------------------------------------------------------------- the parts

  /** 100 moves for part 1, ten million for part 2. */
  function Iterations(partTwo: bool): nat {
    if partTwo then 10000000 else 100
  }

  /** The circle part 1 or part 2 starts from: the input's labels, padded
      to a million cups for part 2. */
  function StartCups(input: string, partTwo: bool): (cups: seq<int>)
    requires |input| > 0
    ensures |cups| > 0
  {
    if partTwo then PadCupsToMillion(Labels(input)) else Labels(input)
  }

  /** `PerformMoves`: the labels (padded for part 2), the circle with the
      head as current cup, 100 or 10 000 000 moves, and the reading. An empty
      input makes `Max()` throw; a circle the move algorithm cannot work on
      (fewer than four cups, or a repeated label) is reported as an error.
      Part 1 reads the final circle clockwise from cup 1, cup 1 left out;
      part 2 multiplies the two cups clockwise of cup 1. */
  function PerformMoves(input: string, partTwo: bool): (r: Result<string>)
    ensures |input| == 0 ==> r.Err?
    ensures r.Ok? ==> |input| > 0 && Valid(Circle(StartCups(input, partTwo), 0))
    ensures (|input| > 0 && Valid(Circle(StartCups(input, partTwo), 0))
             && Moves(Circle(StartCups(input, partTwo), 0), Seqs.Max(StartCups(input, partTwo)), Iterations(partTwo)).Ok?
             && (partTwo ==> 1 in StartCups(input, partTwo))) ==> r.Ok?
    ensures r.Ok? ==> (
      var cups := StartCups(input, partTwo);
      var game := Moves(Circle(cups, 0), Seqs.Max(cups), Iterations(partTwo));
      && game.Ok?
      && (!partTwo ==> r.value == Concat(LabelsAfterOne(game.value.cups)))
      && (!partTwo && 1 in cups ==> exists p :: 0 <= p < |game.value.cups| && game.value.cups[p] == 1
                                             && r.value == Concat(Rotate(game.value.cups, p)[1..]))
      && (partTwo ==> exists p :: 0 <= p < |game.value.cups| && game.value.cups[p] == 1
                                  && r.value == Strings.IntToString(Rotate(game.value.cups, p)[1] * Rotate(game.value.cups, p)[2])))
  {
    var labels := Labels(input);
    if |labels| == 0 then Err("Sequence contains no elements")
    else
      var cups := StartCups(input, partTwo);
      var start := Circle(cups, 0);
      if !Valid(start) then Err("fewer than four cups or a repeated label")
      else
        var final :- Moves(start, Seqs.Max(cups), Iterations(partTwo));
        assert 1 in cups ==> 1 in multiset(final.cups);
        Reading(final.cups, partTwo)
  }

  /** The reading of the final circle, for either part. */
  function Reading(cups: seq<int>, partTwo: bool): (r: Result<string>)
    requires |cups| >= 3 && Seqs.NoDup(cups)
    ensures !partTwo ==> r == Ok(Concat(LabelsAfterOne(cups)))
    ensures !partTwo && 1 in cups ==> exists p :: (0 <= p < |cups| && cups[p] == 1
      && r.value == Concat(Rotate(cups, p)[1..]))
    ensures partTwo ==> (r.Ok? <==> 1 in cups)
    ensures partTwo && r.Ok? ==> exists p :: (0 <= p < |cups| && cups[p] == 1
      && r.value == Strings.IntToString(Rotate(cups, p)[1] * Rotate(cups, p)[2]))
  {
    ReadFromOne(cups);
    if !partTwo then Ok(Concat(LabelsAfterOne(cups)))
    else
      var product :- StarProduct(cups);
      Ok(Strings.IntToString(product))
  }

  /** Both readings start from cup 1: part 1 reads clockwise from it and
      part 2 multiplies the two cups clockwise of it. */
  lemma ReadFromOne(cups: seq<int>)
    requires |cups| >= 3 && Seqs.NoDup(cups)
    ensures 1 in cups ==> exists p :: (0 <= p < |cups| && cups[p] == 1
      && LabelsAfterOne(cups) == Rotate(cups, p)[1..]
      && StarProduct(cups) == Ok(Rotate(cups, p)[1] * Rotate(cups, p)[2]))
  {
    if 1 in cups {
      var p := Find(cups, 1).value;
      LabelsAfterOneRotate(cups, p);
      StarProductRotate(cups, p);
    }
  }

  /** Part 1 reads the circle clockwise from cup 1, leaving cup 1 out. */
  lemma Part1Reads(input: string, final: Circle, p: nat)
    requires Valid(Circle(Labels(input), 0))
    requires Moves(Circle(Labels(input), 0), Seqs.Max(Labels(input)), 100) == Ok(final)
    requires p < |final.cups| && final.cups[p] == 1
    ensures PerformMoves(input, false) == Ok(Concat(Rotate(final.cups, p)[1..]))
  {
    LabelsAfterOneRotate(final.cups, p);
  }

  /** Moves only rearrange cups: an input of digits leaves labels that are
      digits, so part 1 renders one character per cup. */
  lemma MovesKeepDigits(input: string, final: Circle)
    requires Valid(Circle(Labels(input), 0))
    requires Moves(Circle(Labels(input), 0), Seqs.Max(Labels(input)), 100) == Ok(final)
    requires forall i :: 0 <= i < |input| ==> Strings.IsDigit(input[i])
    ensures forall i :: 0 <= i < |final.cups| ==> 0 <= final.cups[i] <= 9
  {
    var labels := Labels(input);
    forall i | 0 <= i < |final.cups|
      ensures 0 <= final.cups[i] <= 9
    {
      assert final.cups[i] in multiset(labels);
      var j :| 0 <= j < |labels| && labels[j] == final.cups[i];
    }
  }

  /** Part 1: the labels clockwise of cup 1 after 100 moves. */
  function Part1(input: string): (r: Result<string>)
    ensures r.Ok? ==> |input| > 0 && Valid(Circle(Labels(input), 0))
    ensures (|input| > 0 && Valid(Circle(Labels(input), 0))
             && Moves(Circle(Labels(input), 0), Seqs.Max(Labels(input)), 100).Ok?) ==> r.Ok?
    ensures r.Ok? ==> (
      var game := Moves(Circle(Labels(input), 0), Seqs.Max(Labels(input)), 100);
      && game.Ok?
      && (1 in Labels(input) ==> exists p :: 0 <= p < |game.value.cups| && game.value.cups[p] == 1
                                           && r.value == Concat(Rotate(game.value.cups, p)[1..])))
  {
    PerformMoves(input, false)
  }

  /** Part 2: the product of the two cups clockwise of cup 1 after ten
      million moves on a million cups. */
  function Part2(input: string): (r: Result<string>)
    ensures r.Ok? ==> |input| > 0 && Valid(Circle(PadCupsToMillion(Labels(input)), 0))
    ensures (|input| > 0 && Valid(Circle(PadCupsToMillion(Labels(input)), 0))
             && Moves(Circle(PadCupsToMillion(Labels(input)), 0), Seqs.Max(PadCupsToMillion(Labels(input))), 10000000).Ok?
             && 1 in PadCupsToMillion(Labels(input))) ==> r.Ok?
    ensures r.Ok? ==> (
      var cups := PadCupsToMillion(Labels(input));
      var game := Moves(Circle(cups, 0), Seqs.Max(cups), 10000000);
      && game.Ok?
      && |game.value.cups| == |cups|
      && exists p :: 0 <= p < |game.value.cups| && game.value.cups[p] == 1
                     && r.value == Strings.IntToString(Rotate(game.value.cups, p)[1] * Rotate(game.value.cups, p)[2]))
  {
    PerformMoves(input, true)
  }
}
