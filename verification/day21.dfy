/** Day 21, Allergen Assessment: each food line lists its ingredients and,
    after `(contains `, some of its allergens. `ParseInput` files the line's
    ingredient list under every allergen it names; `CalculateAllergens` then
    makes passes over the allergens, in the order they were first seen,
    assigning an allergen to an ingredient once exactly one ingredient is
    common to all its lists and not yet taken.

    The original's `while` loop never ends when a pass assigns nothing;
    `Resolve` returns `None` there, which `PassUnchanged` justifies: such a
    pass leaves the state exactly as it was, so every later pass does too.
    Ingredient names are compared ordinally; part 2 sorts allergen names
    with the ordinal order `Le`. */
module Day21 {
  import opened Wrappers
  import opened Strings
  import Seqs

  datatype Food = Food(ingredients: seq<string>, allergens: seq<string>)

  // ---------------------------------------------------------------- parsing

  function TrimParens(xs: seq<string>): (r: seq<string>)
    ensures |r| == |xs|
  {
    seq(|xs|, k requires 0 <= k < |xs| => TrimChar(xs[k], ')'))
  }

  /** One line: the part before `(contains ` trimmed and split at spaces,
      the part after it split at `, ` with `)` trimmed; a line without
      `(contains ` has no second part and the indexing throws. */
  function ParseFood(line: string): (r: Result<Food>)
    ensures r.Ok? <==> |Split(line, "(contains ")| >= 2
    ensures r.Ok? ==> |r.value.allergens| >= 1 && |r.value.ingredients| >= 1
  {
    var parts := Split(line, "(contains ");
    if |parts| < 2 then Err("Index was out of range. Must be non-negative and less than the size of the collection.")
    else Ok(Food(Split(Trim(parts[0]), " "), TrimParens(Split(parts[1], ", "))))
  }

  function ParseFoods(lines: seq<string>): (r: Result<seq<Food>>)
    ensures r.Ok? <==> AllParse(lines)
    ensures r.Ok? ==> |r.value| == |lines|
    ensures r.Ok? ==> forall k :: 0 <= k < |lines| ==> ParseFood(lines[k]) == Ok(r.value[k])
  {
    if |lines| == 0 then Ok([])
    else
      var food :- ParseFood(lines[0]);
      var rest :- ParseFoods(lines[1..]);
      FoodsCons(ParseFood, lines, food, rest);
      Ok([food] + rest)
  }

  /** Every line has the `(contains ` part. */
  predicate AllParse(lines: seq<string>) {
    |lines| == 0 || (ParseFood(lines[0]).Ok? && AllParse(lines[1..]))
  }

  /** Generic in the line parser, so that its body stays folded. */
  lemma FoodsCons(parse: string -> Result<Food>, lines: seq<string>, food: Food, rest: seq<Food>)
    requires |lines| > 0 && parse(lines[0]) == Ok(food) && |rest| == |lines| - 1
    requires forall k :: 0 <= k < |lines| - 1 ==> parse(lines[1..][k]) == Ok(rest[k])
    ensures forall k :: 0 <= k < |lines| ==> parse(lines[k]) == Ok(([food] + rest)[k])
  {
    forall k | 0 <= k < |lines| ensures parse(lines[k]) == Ok(([food] + rest)[k]) {
      if k > 0 {
        assert lines[k] == lines[1..][k - 1];
      }
    }
  }


  // ---------------------------------------------------------------- the allergen mapping

  /** One dictionary entry: an allergen and the ingredient lists filed
      under it, in order. */
  datatype Entry = Entry(allergen: string, lists: seq<seq<string>>)

  /** The dictionary, in insertion order (its enumeration order). */
  type Mapping = seq<Entry>

  function Keys(m: Mapping): (r: seq<string>)
    ensures |r| == |m| && forall k :: 0 <= k < |m| ==> r[k] == m[k].allergen
  {
    seq(|m|, k requires 0 <= k < |m| => m[k].allergen)
  }

  /** Keys are distinct and every entry holds at least one list. */
  predicate WellFormed(m: Mapping) {
    && Seqs.NoDup(Keys(m))
    && forall k :: 0 <= k < |m| ==> |m[k].lists| >= 1
  }

  function Find(m: Mapping, a: string): (r: Option<nat>)
    ensures r.Some? ==> r.value < |m| && m[r.value].allergen == a
    ensures r.None? <==> a !in Keys(m)
  {
    if |m| == 0 then None
    else if m[|m| - 1].allergen == a then Some(|m| - 1)
    else
      assert Keys(m[..|m| - 1]) == Keys(m)[..|m| - 1];
      Find(m[..|m| - 1], a)
  }

  /** The lists filed under `a`; none when it is not a key. */
  function Lookup(m: Mapping, a: string): seq<seq<string>> {
    match Find(m, a)
    case Some(k) => m[k].lists
    case None => []
  }

  /** `allergenMapping[allergen].Add(ingredients)`, adding the key first
      when it is missing. */
  function AddUnder(m: Mapping, a: string, ingredients: seq<string>): (r: Mapping)
    requires WellFormed(m)
    ensures WellFormed(r)
    ensures Keys(r) == if a in Keys(m) then Keys(m) else Keys(m) + [a]
  {
    match Find(m, a)
    case Some(k) =>
      var r := m[k := Entry(a, m[k].lists + [ingredients])];
      assert Keys(r) == Keys(m);
      r
    case None =>
      var r := m + [Entry(a, [ingredients])];
      assert Keys(r) == Keys(m) + [a];
      r
  }

  lemma LookupAddUnder(m: Mapping, a: string, ingredients: seq<string>, b: string)
    requires WellFormed(m)
    ensures Lookup(AddUnder(m, a, ingredients), b) == Lookup(m, b) + if a == b then [ingredients] else []
  {
    var r := AddUnder(m, a, ingredients);
    var f := Find(r, b);
    if f.Some? && Find(m, a).Some? {
      assert Keys(r)[f.value] == b && Keys(m)[f.value] == b;
    } else if f.Some? && f.value < |m| {
      assert Keys(m)[f.value] == b;
    }
    if Find(m, b).Some? {
      var k := Find(m, b).value;
      assert Keys(r)[k] == b;
    }
  }

  /** The inner `foreach`: the line's list under each of its allergens, in
      order. */
  function AddFood(m: Mapping, allergens: seq<string>, ingredients: seq<string>): (r: Mapping)
    requires WellFormed(m)
    ensures WellFormed(r)
    ensures forall a :: a in Keys(r) <==> a in Keys(m) || a in allergens
    decreases |allergens|
  {
    if |allergens| == 0 then m
    else AddFood(AddUnder(m, allergens[0], ingredients), allergens[1..], ingredients)
  }

  /** How many times `a` occurs in `xs`. */
  function Occurrences(xs: seq<string>, a: string): nat {
    if |xs| == 0 then 0 else (if xs[0] == a then 1 else 0) + Occurrences(xs[1..], a)
  }

  function Repeat(x: seq<string>, n: nat): (r: seq<seq<string>>)
    ensures |r| == n && forall k :: 0 <= k < n ==> r[k] == x
  {
    seq(n, _ => x)
  }

  lemma {:induction false} LookupAddFood(m: Mapping, allergens: seq<string>, ingredients: seq<string>, b: string)
    requires WellFormed(m)
    ensures Lookup(AddFood(m, allergens, ingredients), b) == Lookup(m, b) + Repeat(ingredients, Occurrences(allergens, b))
    decreases |allergens|
  {
    if |allergens| == 0 {
      assert Lookup(m, b) + Repeat(ingredients, 0) == Lookup(m, b);
    } else {
      var a := allergens[0];
      var m' := AddUnder(m, a, ingredients);
      assert AddFood(m, allergens, ingredients) == AddFood(m', allergens[1..], ingredients);
      LookupAddUnder(m, a, ingredients, b);
      LookupAddFood(m', allergens[1..], ingredients, b);
      var n := Occurrences(allergens[1..], b);
      assert Occurrences(allergens, b) == (if a == b then 1 else 0) + n;
      RepeatStep(Lookup(m, b), ingredients, n, a == b);
    }
  }

  lemma RepeatStep(l: seq<seq<string>>, x: seq<string>, n: nat, hit: bool)
    ensures l + (if hit then [x] else []) + Repeat(x, n) == l + Repeat(x, (if hit then 1 else 0) + n)
  {
    if hit {
      assert [x] + Repeat(x, n) == Repeat(x, n + 1);
      assert l + [x] + Repeat(x, n) == l + ([x] + Repeat(x, n));
    }
  }

  /** `ParseInput`'s dictionary for the foods, line by line. */
  function MappingOf(foods: seq<Food>): (m: Mapping)
    ensures WellFormed(m)
    ensures forall a :: a in Keys(m) <==> exists k :: 0 <= k < |foods| && a in foods[k].allergens
  {
    if |foods| == 0 then []
    else
      var p := MappingOf(foods[..|foods| - 1]);
      var f := foods[|foods| - 1];
      var m := AddFood(p, f.allergens, f.ingredients);
      assert forall a :: a in Keys(m) <==> exists k :: 0 <= k < |foods| && a in foods[k].allergens by {
        forall a | a in Keys(m)
          ensures exists k :: 0 <= k < |foods| && a in foods[k].allergens
        {
          if a in Keys(p) {
            var k :| 0 <= k < |foods| - 1 && a in foods[..|foods| - 1][k].allergens;
            assert a in foods[k].allergens;
          } else {
            assert a in foods[|foods| - 1].allergens;
          }
        }
        forall a, k | 0 <= k < |foods| && a in foods[k].allergens
          ensures a in Keys(m)
        {
          if k < |foods| - 1 {
            assert a in foods[..|foods| - 1][k].allergens;
          }
        }
      }
      m
  }

  /** The reference: the lists under `a` are the foods' ingredient lists,
      in line order, each once per time its line names `a`. */
  function ListsFor(foods: seq<Food>, a: string): seq<seq<string>> {
    if |foods| == 0 then []
    else
      var f := foods[|foods| - 1];
      ListsFor(foods[..|foods| - 1], a) + Repeat(f.ingredients, Occurrences(f.allergens, a))
  }

  /** Every line files its ingredient list under each allergen it names,
      and nothing else is filed. */
  lemma {:induction false} MappingFilesEveryLine(foods: seq<Food>, a: string)
    ensures Lookup(MappingOf(foods), a) == ListsFor(foods, a)
  {
    if |foods| > 0 {
      var f := foods[|foods| - 1];
      MappingFilesEveryLine(foods[..|foods| - 1], a);
      LookupAddFood(MappingOf(foods[..|foods| - 1]), f.allergens, f.ingredients, a);
    }
  }

  lemma {:induction false} OccursPositive(xs: seq<string>, a: string)
    requires a in xs
    ensures Occurrences(xs, a) >= 1
  {
    if xs[0] != a {
      OccursPositive(xs[1..], a);
    }
  }

  /** A food's list is filed under each of its allergens. */
  lemma {:induction false} FoodFiled(foods: seq<Food>, k: nat, a: string)
    requires k < |foods| && a in foods[k].allergens
    ensures foods[k].ingredients in ListsFor(foods, a)
  {
    var n := |foods| - 1;
    if k == n {
      OccursPositive(foods[n].allergens, a);
      var rep := Repeat(foods[n].ingredients, Occurrences(foods[n].allergens, a));
      assert rep[0] in rep;
    } else {
      FoodFiled(foods[..n], k, a);
      assert foods[..n][k] == foods[k];
    }
  }

  // ---------------------------------------------------------------- resolution

  /** Everything `CalculateAllergens` accumulates: the used-up allergens and
      the ingredients with allergens, in assignment order, and the
      allergen-to-ingredient dictionary. */
  datatype State = State(used: seq<string>, withAllergens: seq<string>, assignment: map<string, string>)

  const Start := State([], [], map[])

  /** The elements of `xs` common to every list and not yet taken,
      duplicates kept. */
  function Keep(xs: seq<string>, lists: seq<seq<string>>, taken: seq<string>): (r: seq<string>)
    ensures forall x :: x in r <==> x in xs && (forall l :: l in lists ==> x in l) && x !in taken
  {
    if |xs| == 0 then []
    else
      var rest := Keep(xs[1..], lists, taken);
      if (forall l :: l in lists ==> xs[0] in l) && xs[0] !in taken then [xs[0]] + rest else rest
  }

  /** `lists[0].Intersect(lists[1])…Intersect(lists[n-1]).Except(taken)`:
      the distinct ingredients in every list and not yet taken, in the
      order of the first list. */
  function Candidates(lists: seq<seq<string>>, taken: seq<string>): (r: seq<string>)
    requires |lists| >= 1
    ensures Seqs.NoDup(r)
    ensures forall x :: x in r <==> (forall l :: l in lists ==> x in l) && x !in taken
  {
    assert lists[0] in lists;
    Seqs.FirstOccurrences(Keep(lists[0], lists, taken))
  }

  /** The body of the `foreach` for one entry; used-up entries are skipped. */
  function Step(e: Entry, s: State): State
    requires |e.lists| >= 1
  {
    if e.allergen in s.used then s
    else
      var c := Candidates(e.lists, s.withAllergens);
      if |c| == 1 then State(s.used + [e.allergen], s.withAllergens + [c[0]], s.assignment[e.allergen := c[0]])
      else s
  }

  /** One pass of the `foreach` over the entries from `k` on. */
  function PassFrom(m: Mapping, k: nat, s: State): State
    requires WellFormed(m) && k <= |m|
    decreases |m| - k
  {
    if k == |m| then s else PassFrom(m, k + 1, Step(m[k], s))
  }

  /** What every state reached from `Start` satisfies: the allergens used
      up are distinct keys, the ingredients assigned are distinct, the
      dictionary pairs them up, and each assigned ingredient is in every
      list of its allergen. */
  ghost predicate Consistent(m: Mapping, s: State) {
    && |s.used| == |s.withAllergens|
    && Seqs.NoDup(s.used)
    && Seqs.NoDup(s.withAllergens)
    && (forall k :: 0 <= k < |s.used| ==> s.used[k] in Keys(m))
    && s.assignment.Keys == (set a | a in s.used)
    && (forall k :: 0 <= k < |s.used| ==> s.assignment[s.used[k]] == s.withAllergens[k])
    && (forall k :: 0 <= k < |s.used| ==> forall l :: l in Lookup(m, s.used[k]) ==> s.withAllergens[k] in l)
  }

  lemma StartConsistent(m: Mapping)
    ensures Consistent(m, Start)
  {
  }

  /** Assigning a fresh allergen an untaken ingredient that is in every
      list of the allergen keeps the state consistent. */
  lemma AssignKeepsConsistent(m: Mapping, k: nat, s: State, x: string)
    requires WellFormed(m) && k < |m| && Consistent(m, s)
    requires m[k].allergen !in s.used && x !in s.withAllergens
    requires forall l :: l in m[k].lists ==> x in l
    ensures Consistent(m, State(s.used + [m[k].allergen], s.withAllergens + [x], s.assignment[m[k].allergen := x]))
  {
    var e := m[k];
    var r := State(s.used + [e.allergen], s.withAllergens + [x], s.assignment[e.allergen := x]);
    FindKey(m, k);
    Seqs.NoDupAppend(s.used, [e.allergen]);
    Seqs.NoDupAppend(s.withAllergens, [x]);
    assert r.assignment.Keys == (set a | a in r.used);
    forall j | 0 <= j < |r.used|
      ensures r.assignment[r.used[j]] == r.withAllergens[j]
    {
      if j < |s.used| {
        assert r.used[j] == s.used[j] != e.allergen;
      }
    }
  }

  /** Keys are distinct, so a key is found at its own position. */
  lemma FindKey(m: Mapping, k: nat)
    requires WellFormed(m) && k < |m|
    ensures Find(m, m[k].allergen) == Some(k)
    ensures m[k].allergen in Keys(m)
  {
    assert Keys(m)[k] == m[k].allergen;
    var f := Find(m, m[k].allergen).value;
    assert Keys(m)[f] == m[k].allergen;
  }

  /** A step assigns the entry's allergen exactly when it is not used up
      and one candidate remains, and then to that candidate: an ingredient
      in all its lists that no other allergen has. */
  lemma StepAssigns(m: Mapping, k: nat, s: State)
    requires WellFormed(m) && k < |m| && Consistent(m, s)
    ensures Consistent(m, Step(m[k], s))
    ensures var r := Step(m[k], s);
      r != s ==>
        && m[k].allergen !in s.used
        && |r.used| == |s.used| + 1
        && r.withAllergens[|s.used|] !in s.withAllergens
        && forall l :: l in m[k].lists ==> r.withAllergens[|s.used|] in l
  {
    var e := m[k];
    if e.allergen !in s.used {
      var c := Candidates(e.lists, s.withAllergens);
      if |c| == 1 {
        assert c[0] in c;
        AssignKeepsConsistent(m, k, s, c[0]);
      }
    }
  }

  /** A pass never shrinks the state and keeps it consistent. */
  lemma {:induction false} PassKeepsConsistent(m: Mapping, k: nat, s: State)
    requires WellFormed(m) && k <= |m| && Consistent(m, s)
    ensures Consistent(m, PassFrom(m, k, s))
    ensures |PassFrom(m, k, s).used| >= |s.used|
    ensures |PassFrom(m, k, s).used| == |s.used| ==> PassFrom(m, k, s) == s
    decreases |m| - k
  {
    if k < |m| {
      StepAssigns(m, k, s);
      PassKeepsConsistent(m, k + 1, Step(m[k], s));
    }
  }

  /** A pass that assigns nothing leaves the state as it was, so the
      original's loop repeats it forever. */
  lemma PassUnchanged(m: Mapping, s: State)
    requires WellFormed(m) && Consistent(m, s)
    requires |PassFrom(m, 0, s).used| == |s.used|
    ensures PassFrom(m, 0, s) == s
  {
    PassKeepsConsistent(m, 0, s);
  }

  lemma UsedBounded(m: Mapping, s: State)
    requires WellFormed(m) && Consistent(m, s)
    ensures |s.used| <= |m|
  {
    Seqs.CardOfNoDup(s.used);
    Seqs.CardOfNoDup(Keys(m));
    Seqs.SubsetCard(set a | a in s.used, set a | a in Keys(m));
  }

  /** `CalculateAllergens`' `while` loop: passes until every allergen is
      used up; `None` when a pass assigns nothing. */
  function Resolve(m: Mapping, s: State): (r: Option<State>)
    requires WellFormed(m) && Consistent(m, s)
    ensures r.Some? ==> Consistent(m, r.value) && |r.value.used| == |m|
    decreases |m| - |s.used|
  {
    UsedBounded(m, s);
    if |s.used| >= |m| then Some(s)
    else
      var s' := PassFrom(m, 0, s);
      PassKeepsConsistent(m, 0, s);
      UsedBounded(m, s');
      if |s'.used| == |s.used| then None
      else Resolve(m, s')
  }

  /** On success every allergen of the input is assigned exactly one
      ingredient, which is in every list filed under it, and no ingredient
      carries two allergens. */
  lemma ResolvedAssignsAll(m: Mapping)
    requires WellFormed(m) && Resolve(m, Start).Some?
    ensures var s := Resolve(m, Start).value;
      && s.assignment.Keys == (set a | a in Keys(m))
      && (forall a :: a in s.assignment ==> forall l :: l in Lookup(m, a) ==> s.assignment[a] in l)
      && (forall a, b :: a in s.assignment && b in s.assignment && a != b ==> s.assignment[a] != s.assignment[b])
  {
    StartConsistent(m);
    var s := Resolve(m, Start).value;
    CompleteKeys(m, s);
    CompleteInLists(m, s);
    CompleteInjective(m, s);
  }

  lemma CompleteKeys(m: Mapping, s: State)
    requires WellFormed(m) && Consistent(m, s) && |s.used| == |m|
    ensures s.assignment.Keys == (set a | a in Keys(m))
  {
    Seqs.CardOfNoDup(s.used);
    Seqs.CardOfNoDup(Keys(m));
    Seqs.SubsetCard(set a | a in s.used, set a | a in Keys(m));
  }

  lemma CompleteInLists(m: Mapping, s: State)
    requires Consistent(m, s)
    ensures forall a :: a in s.assignment ==> forall l :: l in Lookup(m, a) ==> s.assignment[a] in l
  {
    forall a | a in s.assignment
      ensures forall l :: l in Lookup(m, a) ==> s.assignment[a] in l
    {
      assert a in (set b | b in s.used);
      var k :| 0 <= k < |s.used| && s.used[k] == a;
    }
  }

  lemma CompleteInjective(m: Mapping, s: State)
    requires Consistent(m, s)
    ensures forall a, b :: a in s.assignment && b in s.assignment && a != b ==> s.assignment[a] != s.assignment[b]
  {
    forall a, b | a in s.assignment && b in s.assignment && a != b
      ensures s.assignment[a] != s.assignment[b]
    {
      assert a in (set c | c in s.used) && b in (set c | c in s.used);
      var i :| 0 <= i < |s.used| && s.used[i] == a;
      var j :| 0 <= j < |s.used| && s.used[j] == b;
    }
  }

  // ---------------------------------------------------------------- part 1

  function Ingredients(foods: seq<Food>): (r: seq<string>)
    ensures forall x :: x in r <==> exists k :: 0 <= k < |foods| && x in foods[k].ingredients
  {
    if |foods| == 0 then []
    else
      var p := Ingredients(foods[..|foods| - 1]);
      var r := p + foods[|foods| - 1].ingredients;
      assert forall x :: x in r <==> exists k :: 0 <= k < |foods| && x in foods[k].ingredients by {
        forall x | x in p
          ensures exists k :: 0 <= k < |foods| && x in foods[k].ingredients
        {
          var k :| 0 <= k < |foods| - 1 && x in foods[..|foods| - 1][k].ingredients;
          assert x in foods[k].ingredients;
        }
        forall x, k | 0 <= k < |foods| - 1 && x in foods[k].ingredients
          ensures x in p
        {
          assert x in foods[..|foods| - 1][k].ingredients;
        }
      }
      r
  }

  /** Every ingredient in every list of the dictionary, first occurrences. */
  function AllFiled(m: Mapping): (r: seq<string>)
    ensures forall x :: x in r <==> exists k, l :: 0 <= k < |m| && l in m[k].lists && x in l
  {
    if |m| == 0 then []
    else
      var p := AllFiled(m[..|m| - 1]);
      var r := p + Flatten(m[|m| - 1].lists);
      FlattenMembers(m[|m| - 1].lists);
      assert forall x :: x in r <==> exists k, l :: 0 <= k < |m| && l in m[k].lists && x in l by {
        forall x | x in p
          ensures exists k, l :: 0 <= k < |m| && l in m[k].lists && x in l
        {
          var k, l :| 0 <= k < |m| - 1 && l in m[..|m| - 1][k].lists && x in l;
          assert l in m[k].lists;
        }
        forall x, k, l | 0 <= k < |m| - 1 && l in m[k].lists && x in l
          ensures x in p
        {
          assert l in m[..|m| - 1][k].lists;
        }
      }
      r
  }

  lemma {:induction false} FlattenMembers(ls: seq<seq<string>>)
    ensures forall x :: x in Flatten(ls) <==> exists l :: l in ls && x in l
  {
    if |ls| > 0 {
      FlattenMembers(ls[1..]);
      assert Flatten(ls) == ls[0] + Flatten(ls[1..]);
      forall x, l | l in ls && x in l
        ensures x in Flatten(ls)
      {
        if l != ls[0] {
          assert l in ls[1..];
        }
      }
    }
  }

  /** How many of `xs` are not in `taken`. */
  function CountUnassigned(xs: seq<string>, taken: seq<string>): nat {
    if |xs| == 0 then 0 else (if xs[0] in taken then 0 else 1) + CountUnassigned(xs[1..], taken)
  }

  /** `ingredientList.Count(x => safe.Contains(x))`. */
  function CountIn(xs: seq<string>, safe: seq<string>): nat {
    if |xs| == 0 then 0 else (if xs[0] in safe then 1 else 0) + CountIn(xs[1..], safe)
  }

  /** `Except` over `Distinct`: the first occurrences not in `taken`. */
  function Without(xs: seq<string>, taken: seq<string>): (r: seq<string>)
    ensures forall x :: x in r <==> x in xs && x !in taken
  {
    Seqs.FirstOccurrences(Keep(xs, [], taken))
  }

  /** Counting the occurrences of the safe ingredients is counting the
      occurrences of unassigned ones, since every listed ingredient is in
      the dictionary. */
  lemma {:induction false} CountSafe(xs: seq<string>, all: seq<string>, taken: seq<string>)
    requires forall x :: x in xs ==> x in all
    ensures CountIn(xs, Without(all, taken)) == CountUnassigned(xs, taken)
  {
    if |xs| > 0 {
      CountSafe(xs[1..], all, taken);
    }
  }

  /** Part 1: how many times, across all lines, an ingredient that no
      allergen was assigned to appears. */
  function Part1(lines: seq<string>): (r: Result<nat>)
    ensures r.Ok? <==> ParseFoods(lines).Ok? && Resolve(MappingOf(ParseFoods(lines).value), Start).Some?
    ensures r.Ok? ==>
      var foods := ParseFoods(lines).value;
      r.value == CountUnassigned(Ingredients(foods), Resolve(MappingOf(foods), Start).value.withAllergens)
  {
    var foods :- ParseFoods(lines);
    ParsedNameAllergens(lines);
    if Part1Of(foods).Ok? then Part1OfCounts(foods); Part1Of(foods) else Part1Of(foods)
  }

  /** Part 1 once the lines are parsed. */
  function Part1Of(foods: seq<Food>): (r: Result<nat>)
    ensures r.Ok? <==> Resolve(MappingOf(foods), Start).Some?
  {
    var m := MappingOf(foods);
    StartConsistent(m);
    match Resolve(m, Start)
    case None => Err("The allergen passes stop assigning.")
    case Some(s) => Ok(CountIn(Ingredients(foods), Without(AllFiled(m), s.withAllergens)))
  }

  /** Every food names at least one allergen, as every parsed line does. */
  predicate NamesAllergens(foods: seq<Food>) {
    forall k :: 0 <= k < |foods| ==> |foods[k].allergens| >= 1
  }

  lemma ParsedNameAllergens(lines: seq<string>)
    requires ParseFoods(lines).Ok?
    ensures NamesAllergens(ParseFoods(lines).value)
  {
    var foods := ParseFoods(lines).value;
    forall k | 0 <= k < |foods| ensures |foods[k].allergens| >= 1 {
      assert ParseFood(lines[k]) == Ok(foods[k]);
    }
  }

  /** An ingredient of a food that names an allergen is in the dictionary. */
  lemma IngredientFiled(foods: seq<Food>, k: nat, x: string)
    requires k < |foods| && |foods[k].allergens| >= 1 && x in foods[k].ingredients
    ensures x in AllFiled(MappingOf(foods))
  {
    var m := MappingOf(foods);
    var a := foods[k].allergens[0];
    assert a in foods[k].allergens;
    FoodFiled(foods, k, a);
    MappingFilesEveryLine(foods, a);
    var j := Find(m, a).value;
    assert foods[k].ingredients in m[j].lists;
  }

  lemma Part1OfCounts(foods: seq<Food>)
    requires NamesAllergens(foods) && Part1Of(foods).Ok?
    ensures Part1Of(foods).value == CountUnassigned(Ingredients(foods), Resolve(MappingOf(foods), Start).value.withAllergens)
  {
    var m := MappingOf(foods);
    forall x | x in Ingredients(foods)
      ensures x in AllFiled(m)
    {
      var k :| 0 <= k < |foods| && x in foods[k].ingredients;
      IngredientFiled(foods, k, x);
    }
    CountSafe(Ingredients(foods), AllFiled(m), Resolve(m, Start).value.withAllergens);
  }

  // ---------------------------------------------------------------- part 2

  /** Ordinal string order: by code unit, a proper prefix first. */
  predicate Le(a: string, b: string) {
    if |a| == 0 then true
    else if |b| == 0 then false
    else if a[0] != b[0] then a[0] < b[0]
    else Le(a[1..], b[1..])
  }

  lemma {:induction false} LeTotal(a: string, b: string)
    ensures Le(a, b) || Le(b, a)
  {
    if |a| > 0 && |b| > 0 && a[0] == b[0] {
      LeTotal(a[1..], b[1..]);
    }
  }

  lemma {:induction false} LeTransitive(a: string, b: string, c: string)
    requires Le(a, b) && Le(b, c)
    ensures Le(a, c)
  {
    if |a| > 0 && |b| > 0 && |c| > 0 && a[0] == b[0] && b[0] == c[0] {
      LeTransitive(a[1..], b[1..], c[1..]);
    }
  }

  predicate SortedKeys(xs: seq<string>) {
    forall i, j :: 0 <= i < j < |xs| ==> Le(xs[i], xs[j])
  }

  function Insert(x: string, xs: seq<string>): (r: seq<string>)
    requires SortedKeys(xs)
    ensures SortedKeys(r) && multiset(r) == multiset(xs) + multiset{x}
  {
    if |xs| == 0 then [x]
    else if Le(x, xs[0]) then
      SortedFront(x, xs);
      [x] + xs
    else
      LeTotal(x, xs[0]);
      var rest := Insert(x, xs[1..]);
      SortedInsertAfter(x, xs, rest);
      [xs[0]] + rest
  }

  lemma SortedFront(x: string, xs: seq<string>)
    requires SortedKeys(xs) && |xs| > 0 && Le(x, xs[0])
    ensures SortedKeys([x] + xs)
  {
    forall j | 0 <= j < |xs| ensures Le(x, xs[j]) {
      if j > 0 {
        LeTransitive(x, xs[0], xs[j]);
      }
    }
  }

  lemma SortedInsertAfter(x: string, xs: seq<string>, rest: seq<string>)
    requires SortedKeys(xs) && |xs| > 0 && Le(xs[0], x)
    requires SortedKeys(rest) && multiset(rest) == multiset(xs[1..]) + multiset{x}
    ensures SortedKeys([xs[0]] + rest) && multiset([xs[0]] + rest) == multiset(xs) + multiset{x}
  {
    assert xs == [xs[0]] + xs[1..];
    forall y | y in rest ensures Le(xs[0], y) {
      assert y in multiset(rest);
    }
  }

  /** `OrderBy(x => x.Key)`, by insertion. */
  function SortKeys(xs: seq<string>): (r: seq<string>)
    ensures SortedKeys(r) && multiset(r) == multiset(xs)
  {
    if |xs| == 0 then []
    else
      assert xs == xs[..|xs| - 1] + [xs[|xs| - 1]];
      Insert(xs[|xs| - 1], SortKeys(xs[..|xs| - 1]))
  }

  function Values(keys: seq<string>, assignment: map<string, string>): (r: seq<string>)
    requires forall k :: 0 <= k < |keys| ==> keys[k] in assignment
    ensures |r| == |keys|
  {
    seq(|keys|, k requires 0 <= k < |keys| => assignment[keys[k]])
  }

  /** Part 2: the assigned ingredients joined with commas, in the ordinal
      order of their allergens, each input allergen once. */
  function Part2(lines: seq<string>): (r: Result<string>)
    ensures r.Ok? <==> ParseFoods(lines).Ok? && Resolve(MappingOf(ParseFoods(lines).value), Start).Some?
    ensures r.Ok? ==>
      var m := MappingOf(ParseFoods(lines).value);
      var s := Resolve(m, Start).value;
      exists keys :: SortedKeys(keys) && multiset(keys) == multiset(Keys(m))
        && (forall k :: 0 <= k < |keys| ==> keys[k] in s.assignment)
        && r.value == Join(Values(keys, s.assignment), ",")
  {
    var foods :- ParseFoods(lines);
    var m := MappingOf(foods);
    if Part2Of(m).Ok? then Part2OfLists(m); Part2Of(m) else Part2Of(m)
  }

  /** Part 2 once the dictionary is built. */
  function Part2Of(m: Mapping): (r: Result<string>)
    requires WellFormed(m)
    ensures r.Ok? <==> Resolve(m, Start).Some?
  {
    StartConsistent(m);
    match Resolve(m, Start)
    case None => Err("The allergen passes stop assigning.")
    case Some(s) => Ok(Dangerous(s))
  }

  /** The ingredients, in the ordinal order of their allergens. */
  function Dangerous(s: State): string
    requires s.assignment.Keys == (set a | a in s.used)
  {
    var keys := SortKeys(s.used);
    SortedAssigned(s, keys);
    Join(Values(keys, s.assignment), ",")
  }

  lemma SortedAssigned(s: State, keys: seq<string>)
    requires s.assignment.Keys == (set a | a in s.used)
    requires multiset(keys) == multiset(s.used)
    ensures forall k :: 0 <= k < |keys| ==> keys[k] in s.assignment
  {
    forall k | 0 <= k < |keys| ensures keys[k] in s.assignment {
      assert keys[k] in multiset(s.used);
    }
  }

  /** On success every allergen of the input is used up exactly once. */
  lemma UsedAreKeys(m: Mapping)
    requires WellFormed(m) && Resolve(m, Start).Some?
    ensures multiset(Resolve(m, Start).value.used) == multiset(Keys(m))
  {
    StartConsistent(m);
    var s := Resolve(m, Start).value;
    ResolvedAssignsAll(m);
    assert Consistent(m, s);
    var used, keys := set a | a in s.used, set a | a in Keys(m);
    assert used == keys;
    forall x ensures x in s.used <==> x in Keys(m) {
      if x in s.used {
        assert x in used;
      }
      if x in Keys(m) {
        assert x in keys;
      }
    }
    NoDupMultiset(s.used, Keys(m));
  }

  lemma Part2OfLists(m: Mapping)
    requires WellFormed(m) && Part2Of(m).Ok?
    ensures var s := Resolve(m, Start).value;
      exists keys :: SortedKeys(keys) && multiset(keys) == multiset(Keys(m))
        && (forall k :: 0 <= k < |keys| ==> keys[k] in s.assignment)
        && Part2Of(m).value == Join(Values(keys, s.assignment), ",")
  {
    StartConsistent(m);
    var s := Resolve(m, Start).value;
    var keys := SortKeys(s.used);
    UsedAreKeys(m);
    SortedAssigned(s, keys);
    assert Part2Of(m).value == Join(Values(keys, s.assignment), ",");
  }

  /** Two lists without repetitions and with the same elements have the
      same multiset. */
  lemma NoDupMultiset(a: seq<string>, b: seq<string>)
    requires Seqs.NoDup(a) && Seqs.NoDup(b) && forall x :: x in a <==> x in b
    ensures multiset(a) == multiset(b)
  {
    forall x ensures multiset(a)[x] == multiset(b)[x] {
      Seqs.NoDupCount(a, x);
      Seqs.NoDupCount(b, x);
    }
  }
}
