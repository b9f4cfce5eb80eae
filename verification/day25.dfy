/** Day 25, Combo Breaker: the card and the door each transform the subject
    number 7 a secret number of times (the loop size), each time multiplying
    and taking the remainder by 20201227, and publish the result. Part 1
    finds the card's loop size by trying 1, 7, 49, … until the card's public
    key appears, then transforms the door's public key that many times.

    The search has no bound in the original (a key that never appears spins
    forever); here it takes `fuel` steps and `None` means the fuel ran out.
    The transform is shown to be modular exponentiation (`TransformIsPower`),
    which makes both sides derive the same encryption key (`KeysAgree`). */
module Day25 {
  import opened Wrappers

  const Modulus: int := 20201227
  const Subject: int := 7

  /** C#'s `%` on `long`: the remainder takes the sign of the dividend. */
  function Rem(a: int, m: int): (r: int)
    requires m > 0
    ensures a >= 0 ==> r == a % m
    ensures -m < r < m
  {
    if a >= 0 then a % m else -((-a) % m)
  }

  /** One pass of either loop: `val *= subject; val %= 20201227`. */
  function Step(val: int, subject: int): int {
    Rem(val * subject, Modulus)
  }

  /** `CalculateEncrypionKey`: `1` transformed `loopSize` times; a loop size
      of zero or less runs the loop no times. */
  function Transform(loopSize: int, subject: int): (r: int)
    ensures loopSize <= 0 ==> r == 1
    ensures loopSize >= 1 ==> -Modulus < r < Modulus
    ensures subject >= 0 ==> 0 <= r < Modulus
    decreases loopSize
  {
    if loopSize <= 0 then 1 else Step(Transform(loopSize - 1, subject), subject)
  }

  // ---------------------------------------------------------------- arithmetic

  function Pow(b: int, n: nat): int {
    if n == 0 then 1 else Pow(b, n - 1) * b
  }

  lemma {:induction false} PowNonNegative(b: int, n: nat)
    requires b >= 0
    ensures Pow(b, n) >= 0
  {
    if n > 0 {
      PowNonNegative(b, n - 1);
    }
  }

  lemma {:induction false} ModAddMultiple(k: nat, x: int)
    ensures (k * Modulus + x) % Modulus == x % Modulus
    decreases k
  {
    if k > 0 {
      ModAddMultiple(k - 1, x);
      assert k * Modulus + x == ((k - 1) * Modulus + x) + Modulus;
    }
  }

  /** Reducing a factor first does not change the remainder of a product. */
  lemma ModMulLeft(a: int, b: int)
    requires a >= 0 && b >= 0
    ensures (a % Modulus) * b % Modulus == a * b % Modulus
  {
    var q, r := a / Modulus, a % Modulus;
    assert a == q * Modulus + r;
    assert a * b == (q * b) * Modulus + r * b;
    assert q * b >= 0;
    ModAddMultiple(q * b, r * b);
  }

  lemma ModMulBoth(a: int, b: int)
    requires a >= 0 && b >= 0
    ensures (a % Modulus) * (b % Modulus) % Modulus == a * b % Modulus
  {
    ModMulLeft(a, b % Modulus);
    ModMulLeft(b, a);
    assert a * (b % Modulus) == (b % Modulus) * a && a * b == b * a;
  }

  lemma {:induction false} PowAdd(b: int, x: nat, y: nat)
    ensures Pow(b, x + y) == Pow(b, x) * Pow(b, y)
    decreases y
  {
    if y > 0 {
      PowAdd(b, x, y - 1);
      assert Pow(b, x + y) == Pow(b, x + y - 1) * b;
      assert Pow(b, x) * Pow(b, y - 1) * b == Pow(b, x) * (Pow(b, y - 1) * b);
    }
  }

  lemma {:induction false} PowMul(b: int, x: nat, y: nat)
    ensures Pow(Pow(b, x), y) == Pow(b, x * y)
    decreases y
  {
    if y > 0 {
      PowMul(b, x, y - 1);
      assert x * y == x * (y - 1) + x;
      PowAdd(b, x * (y - 1), x);
    }
  }

  lemma {:induction false} PowMod(a: int, n: nat)
    requires a >= 0
    ensures Pow(a % Modulus, n) % Modulus == Pow(a, n) % Modulus
    decreases n
  {
    if n > 0 {
      PowMod(a, n - 1);
      PowNonNegative(a % Modulus, n - 1);
      PowNonNegative(a, n - 1);
      ModMulLeft(Pow(a % Modulus, n - 1), a % Modulus);
      ModMulBoth(Pow(a, n - 1), a);
    }
  }

  // ---------------------------------------------------------------- the transform

  /** For a non-negative subject the transform is modular exponentiation. */
  lemma {:induction false} TransformIsPower(n: nat, subject: int)
    requires subject >= 0
    ensures Transform(n, subject) == Pow(subject, n) % Modulus
  {
    if n > 0 {
      var p, t := Pow(subject, n - 1), Transform(n - 1, subject);
      TransformIsPower(n - 1, subject);
      PowNonNegative(subject, n - 1);
      StepOfNonNegative(t, subject);
      ModMulLeft(p, subject);
      assert Pow(subject, n) == p * subject;
    }
  }

  lemma StepOfNonNegative(val: int, subject: int)
    requires val >= 0 && subject >= 0
    ensures Step(val, subject) == val * subject % Modulus
  {
    assert val * subject >= 0;
  }

  /** Transforming the door's public key by the card's loop size gives what
      transforming the card's public key by the door's loop size gives. */
  lemma KeysAgree(cardLoop: nat, doorLoop: nat)
    ensures Transform(cardLoop, Transform(doorLoop, Subject)) == Transform(doorLoop, Transform(cardLoop, Subject))
  {
    var card, door := Transform(cardLoop, Subject), Transform(doorLoop, Subject);
    TransformIsPower(cardLoop, door);
    TransformIsPower(doorLoop, card);
    TransformIsPower(doorLoop, Subject);
    TransformIsPower(cardLoop, Subject);
    PowNonNegative(Subject, doorLoop);
    PowNonNegative(Subject, cardLoop);
    PowMod(Pow(Subject, doorLoop), cardLoop);
    PowMod(Pow(Subject, cardLoop), doorLoop);
    PowMul(Subject, doorLoop, cardLoop);
    PowMul(Subject, cardLoop, doorLoop);
    assert doorLoop * cardLoop == cardLoop * doorLoop;
  }

  /** With a subject below the modulus every intermediate `val * subject`
      is below 2^63, so the original's `long` arithmetic never overflows. */
  lemma ProductsFitInLong(n: nat, subject: int)
    requires 0 <= subject < Modulus
    ensures 0 <= Transform(n, subject) * subject < 0x8000_0000_0000_0000
  {
    ProductBelow(Transform(n, subject), subject);
  }

  lemma ProductBelow(a: int, b: int)
    requires 0 <= a < Modulus && 0 <= b < Modulus
    ensures 0 <= a * b < 0x8000_0000_0000_0000
  {
    assert a * b <= a * Modulus by {
      assert a * (Modulus - b) >= 0;
    }
    assert a * Modulus <= Modulus * Modulus by {
      assert (Modulus - a) * Modulus >= 0;
    }
    assert Modulus * Modulus < 0x8000_0000_0000_0000;
  }

  // ---------------------------------------------------------------- the search

  /** `FindLoopSize`'s loop from `loopSize` with `val`, for at most `fuel`
      more passes. */
  function Search(publicKey: int, subject: int, loopSize: nat, val: int, fuel: nat): (r: Option<nat>)
    requires val == Transform(loopSize, subject)
    requires forall k :: 0 <= k < loopSize ==> Transform(k, subject) != publicKey
    ensures r.Some? ==> loopSize <= r.value <= loopSize + fuel
    ensures r.Some? ==> Transform(r.value, subject) == publicKey
    ensures r.Some? ==> forall k :: 0 <= k < r.value ==> Transform(k, subject) != publicKey
    ensures forall k :: loopSize <= k <= loopSize + fuel && Transform(k, subject) == publicKey ==> r.Some?
    decreases fuel
  {
    if val == publicKey then Some(loopSize)
    else if fuel == 0 then None
    else Search(publicKey, subject, loopSize + 1, Step(val, subject), fuel - 1)
  }

  /** `FindLoopSize` with the default subject 7: the least loop size whose
      transform is the public key, found when it is at most `fuel`. */
  function FindLoopSize(publicKey: int, fuel: nat): (r: Option<nat>)
    ensures r.Some? ==> r.value <= fuel && Transform(r.value, Subject) == publicKey
    ensures r.Some? ==> forall k :: 0 <= k < r.value ==> Transform(k, Subject) != publicKey
    ensures forall k :: 0 <= k <= fuel && Transform(k, Subject) == publicKey ==> r.Some?
  {
    Search(publicKey, Subject, 0, 1, fuel)
  }

  /** The public key 1 is the transform of loop size 0. */
  lemma LoopSizeOfOne(fuel: nat)
    ensures FindLoopSize(1, fuel) == Some(0)
  {
  }

  /** A public key outside `[0, 20201227)` other than 1 is never reached:
      the original loops forever on it. */
  lemma UnreachableKey(publicKey: int, fuel: nat)
    requires publicKey != 1 && (publicKey < 0 || publicKey >= Modulus)
    ensures FindLoopSize(publicKey, fuel) == None
  {
  }

  // ---------------------------------------------------------------- parts

  /** Part 1: the card's loop size applied to the door's public key; fewer
      than two keys is an index error. */
  function Part1(keys: seq<int>, fuel: nat): (r: Result<int>)
    ensures |keys| < 2 ==> r.Err?
    ensures |keys| >= 2 && r.Ok? ==> exists n: nat {:trigger Transform(n, Subject)} :: Transform(n, Subject) == keys[0] && r.value == Transform(n, keys[1])
  {
    if |keys| < 2 then Err("Index was out of range.")
    else match FindLoopSize(keys[0], fuel)
      case None => Err("The loop size search did not end.")
      case Some(n) => Ok(Transform(n, keys[1]))
  }

  /** When both public keys come from loop sizes, part 1 is the shared
      encryption key, whichever side's loop size was found. */
  lemma Part1SharedKey(cardLoop: nat, doorLoop: nat, fuel: nat)
    requires cardLoop <= fuel
    ensures Part1([Transform(cardLoop, Subject), Transform(doorLoop, Subject)], fuel)
      == Ok(Transform(doorLoop, Transform(cardLoop, Subject)))
  {
    var card := Transform(cardLoop, Subject);
    var n := FindLoopSize(card, fuel).value;
    KeysAgree(n, doorLoop);
  }

  /** The puzzle has no second part: a fixed message. */
  function Part2(): (r: string)
    ensures r == "No part 2 in this puzzle"
  {
    "No part 2 in this puzzle"
  }
}
