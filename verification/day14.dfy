/** Day 14, Docking Data: a program of `mask = ...` and `mem[a] = v` lines
    run on a 36-bit machine with a dictionary as memory. The version 1
    decoder masks the value: a `1` or `0` in the mask overwrites the bit and
    an `X` keeps it. The version 2 decoder masks the address: a `1`
    overwrites the bit, a `0` keeps it, and an `X` floats, so the value is
    written to every address that the floating bits can form. The answer is
    the sum of the values in memory. */
module Day14 {
  import opened Wrappers
  import opened Strings
  import opened Day14Extensions

  // ---------------------------------------------------------------- memory

  /** One dictionary entry. */
  datatype Cell = Cell(address: int, value: int)

  /** The address space: the dictionary's entries in insertion order. */
  type Memory = seq<Cell>

  predicate Unique(mem: Memory) {
    forall i, j :: 0 <= i < j < |mem| ==> mem[i].address != mem[j].address
  }

  function Lookup(mem: Memory, address: int): (r: Option<int>)
    ensures r.Some? <==> exists i :: 0 <= i < |mem| && mem[i].address == address
  {
    if |mem| == 0 then None
    else if mem[0].address == address then Some(mem[0].value)
    else Lookup(mem[1..], address)
  }

  /** `AddressSpace[address] = value`: overwrite the entry, or add one. */
  function Store(mem: Memory, address: int, value: int): (r: Memory)
    requires Unique(mem)
    ensures Unique(r)
    ensures Lookup(r, address) == Some(value)
    ensures forall a :: a != address ==> Lookup(r, a) == Lookup(mem, a)
    ensures Total(r) == Total(mem) + value - (match Lookup(mem, address) case Some(v) => v case None => 0)
  {
    if |mem| == 0 then [Cell(address, value)]
    else if mem[0].address == address then
      assert forall a :: a != address ==> Lookup(mem, a) == Lookup(mem[1..], a);
      assert forall i :: 0 <= i < |mem| - 1 ==> mem[1..][i].address != address;
      NotStored(mem[1..], address);
      [Cell(address, value)] + mem[1..]
    else
      var rest := Store(mem[1..], address, value);
      assert ([mem[0]] + rest)[1..] == rest;
      assert Lookup(mem, address) == Lookup(mem[1..], address);
      assert Total([mem[0]] + rest) == mem[0].value + Total(rest);
      NotStored(mem[1..], mem[0].address);
      assert Lookup(rest, mem[0].address) == None;
      [mem[0]] + rest
  }

  lemma NotStored(mem: Memory, address: int)
    requires forall i :: 0 <= i < |mem| ==> mem[i].address != address
    ensures Lookup(mem, address) == None
  {
  }

  /** `AddressSpace.Values.Sum()`. */
  function Total(mem: Memory): int {
    if |mem| == 0 then 0 else mem[0].value + Total(mem[1..])
  }

  // ---------------------------------------------------------------- decoders

  /** `ApplyMixedMask`: AND with the mask read with `X` as `1`, then OR with
      the mask read with `X` as `0`. Each result bit is set where the mask
      has `1`, kept where it has `X`, and cleared anywhere else; a mask of
      another length throws. */
  function ApplyMixedMask(source: Bits, mask: string): (r: Option<Bits>)
    ensures r.Some? <==> |source| == |mask|
    ensures r.Some? ==> |r.value| == |mask|
    ensures r.Some? ==> forall k :: 0 <= k < |mask| ==>
      (r.value[k] <==> mask[k] == '1' || (mask[k] == 'X' && source[k]))
  {
    var andMask := StringBits(ReplaceChar(mask, 'X', '1'));
    var orMask := StringBits(ReplaceChar(mask, 'X', '0'));
    match And(source, andMask)
    case None => None
    case Some(anded) => Or(anded, orMask)
  }

  /** The positions of `X` in `mask[..x + 1]`, from `x` down to 0: the order
      in which the floating loop visits them. */
  function Floating(mask: string, x: int): (ps: seq<nat>)
    requires x < |mask|
    ensures forall j :: 0 <= j < |ps| ==> ps[j] <= x && mask[ps[j]] == 'X'
    ensures forall i, j :: 0 <= i < j < |ps| ==> ps[i] > ps[j]
    decreases x + 1
  {
    if x < 0 then []
    else
      var rest := Floating(mask, x - 1);
      var here: seq<nat> := if mask[x] == 'X' then [x as nat] else [];
      assert forall j :: 0 <= j < |here + rest| ==> (here + rest)[j] == (if j < |here| then x else rest[j - |here|]);
      here + rest
  }

  /** Every `X` up to `x` is visited... */
  lemma {:induction false} FloatingComplete(mask: string, x: int)
    requires x < |mask|
    ensures forall p :: 0 <= p <= x && mask[p] == 'X' ==> p in Floating(mask, x)
    decreases x + 1
  {
    if x >= 0 {
      FloatingComplete(mask, x - 1);
      FloatingUnfold(mask, x);
    }
  }

  /** ... and there are as many as the mask holds. */
  lemma {:induction false} FloatingLength(mask: string, x: int)
    requires x < |mask|
    ensures x >= 0 ==> |Floating(mask, x)| == multiset(mask[..x + 1])['X']
    decreases x + 1
  {
    if x >= 0 {
      FloatingUnfold(mask, x);
      var before := multiset(mask[..x])['X'];
      if x == 0 {
        assert mask[..x] == [];
      } else {
        FloatingLength(mask, x - 1);
        assert mask[..x - 1 + 1] == mask[..x];
      }
      assert |Floating(mask, x - 1)| == before;
      SliceCount(mask, x);
    }
  }

  lemma SliceCount(mask: string, x: nat)
    requires x < |mask|
    ensures multiset(mask[..x + 1])['X'] == multiset(mask[..x])['X'] + (if mask[x] == 'X' then 1 else 0)
  {
    assert mask[..x + 1] == mask[..x] + [mask[x]];
  }

  lemma FloatingUnfold(mask: string, x: nat)
    requires x < |mask|
    ensures Floating(mask, x) == (if mask[x] == 'X' then [x] else []) + Floating(mask, x - 1)
  {
  }

  /** The floating positions of the whole mask, `mask.Count(c => c == 'X')`
      of them. */
  lemma FloatingCount(mask: string)
    ensures |Floating(mask, |mask| - 1)| == CountChar(mask, 'X')
  {
    CountCharMultiplicity(mask, 'X');
    FloatingLength(mask, |mask| - 1);
    if |mask| > 0 {
      assert mask[..|mask|] == mask;
    }
  }

  /** The address builder after the inner loop: position `positions[j]`
      takes `choice[j]`. */
  function Fill(address: Bits, positions: seq<nat>, choice: Bits): (r: Bits)
    requires forall j :: 0 <= j < |positions| ==> positions[j] < |address|
    requires |choice| >= |positions|
    ensures |r| == |address|
    ensures forall k :: 0 <= k < |address| && k !in positions ==> r[k] == address[k]
    ensures (forall i, j :: 0 <= i < j < |positions| ==> positions[i] != positions[j]) ==>
      forall j :: 0 <= j < |positions| ==> r[positions[j]] == choice[j]
    decreases |positions|
  {
    if |positions| == 0 then address
    else
      var rest := Fill(address[positions[0] := choice[0]], positions[1..], choice[1..]);
      assert forall k :: k in positions[1..] ==> k in positions;
      rest
  }

  /** `1 << floatingCount` on a 32-bit `int`: the shift count is taken
      modulo 32, and a shift of 31 gives a negative bound, so the loop does
      not run. */
  function LoopBound(floatingCount: nat): (n: nat)
    ensures floatingCount < 31 ==> n == Pow2(floatingCount)
  {
    var shift := floatingCount % 32;
    if shift == 31 then 0 else Pow2(shift)
  }

  /** The `i`-th floating choice: `i` in binary, padded to `floatingCount`
      places, most significant bit first. */
  function Choice(i: nat, floatingCount: nat): (c: Bits)
    ensures |c| >= floatingCount
  {
    PadLeft(Binary(i), floatingCount)
  }

  /** The bits of the `i`-th address `GetAddressesAfterFloatingMask` builds. */
  function FloatingAddress(address: Bits, mask: string, i: nat): (r: Bits)
    requires |address| == |mask|
    ensures |r| == |mask|
  {
    var positions := Floating(mask, |mask| - 1);
    FloatingCount(mask);
    Fill(address, positions, Choice(i, CountChar(mask, 'X')))
  }

  /** `GetAddressesAfterFloatingMask`: one address per counter value. */
  function AddressesAfterFloatingMask(address: Bits, mask: string): (r: seq<nat>)
    requires |address| == |mask|
    ensures |r| == LoopBound(CountChar(mask, 'X'))
    ensures forall i :: 0 <= i < |r| ==> r[i] == FromBits(FloatingAddress(address, mask, i))
  {
    seq(LoopBound(CountChar(mask, 'X')), i requires 0 <= i => FromBits(FloatingAddress(address, mask, i)))
  }

  /** `GetAddressesToSet`: OR the address with the mask read with `X` as
      `0`, then float; a mask of another length throws. */
  function AddressesToSet(address: Bits, mask: string): (r: Option<seq<nat>>)
    ensures r.Some? <==> |address| == |mask|
  {
    match Or(StringBits(ReplaceChar(mask, 'X', '0')), address)
    case None => None
    case Some(ored) => Some(AddressesAfterFloatingMask(ored, mask))
  }

  /** Every bit of a generated address that is not floating is the
      (already OR-ed) address bit. */
  lemma FixedBitsKept(address: Bits, mask: string, i: nat, k: nat)
    requires |address| == |mask| && k < |mask| && mask[k] != 'X'
    ensures FloatingAddress(address, mask, i)[k] == address[k]
  {
    var positions := Floating(mask, |mask| - 1);
    FloatingCount(mask);
    assert k !in positions;
    assert FloatingAddress(address, mask, i) == Fill(address, positions, Choice(i, CountChar(mask, 'X')));
  }

  /** The `j`-th floating position of the `i`-th address takes bit `j` of
      the `i`-th choice. */
  lemma FloatingBitsChosen(address: Bits, mask: string, i: nat, j: nat)
    requires |address| == |mask| && j < CountChar(mask, 'X')
    ensures j < |Floating(mask, |mask| - 1)| < |mask| + 1
    ensures FloatingAddress(address, mask, i)[Floating(mask, |mask| - 1)[j]] == Choice(i, CountChar(mask, 'X'))[j]
  {
    var positions := Floating(mask, |mask| - 1);
    FloatingCount(mask);
    assert forall a, b :: 0 <= a < b < |positions| ==> positions[a] != positions[b];
    var bits := Fill(address, positions, Choice(i, CountChar(mask, 'X')));
    assert FloatingAddress(address, mask, i) == bits;
    assert bits[positions[j]] == Choice(i, CountChar(mask, 'X'))[j];
  }

  /** The address the version 2 decoder ORs before floating: set where the
      mask has `1`, the original bit elsewhere. */
  lemma OredBits(address: Bits, mask: string, k: nat)
    requires |address| == |mask| && k < |mask|
    ensures Or(StringBits(ReplaceChar(mask, 'X', '0')), address).Some?
    ensures var ored := Or(StringBits(ReplaceChar(mask, 'X', '0')), address).value;
      ored[k] <==> mask[k] == '1' || address[k]
  {
  }

  /** A counter value below `2^f` is read back from its choice. */
  lemma ChoiceValue(i: nat, f: nat)
    requires f >= 1 && i < Pow2(f)
    ensures |Choice(i, f)| == f && FromBits(Choice(i, f)) == i
  {
    BinaryFits(i, f);
  }

  /** Different counter values give different choices. */
  lemma ChoiceInjective(i: nat, j: nat, f: nat)
    requires f >= 1 && i < Pow2(f) && j < Pow2(f) && i != j
    ensures exists b :: 0 <= b < f && Choice(i, f)[b] != Choice(j, f)[b]
  {
    ChoiceValue(i, f);
    ChoiceValue(j, f);
    var ci, cj := Choice(i, f), Choice(j, f);
    assert ci != cj;
  }

  /** Filling the same positions with choices that differ at `b` gives
      bits that differ at `positions[b]`. */
  lemma FillDiffers(address: Bits, positions: seq<nat>, c1: Bits, c2: Bits, b: nat)
    requires forall j :: 0 <= j < |positions| ==> positions[j] < |address|
    requires forall i, j :: 0 <= i < j < |positions| ==> positions[i] != positions[j]
    requires |c1| >= |positions| && |c2| >= |positions| && b < |positions| && c1[b] != c2[b]
    ensures Fill(address, positions, c1) != Fill(address, positions, c2)
  {
    assert Fill(address, positions, c1)[positions[b]] != Fill(address, positions, c2)[positions[b]];
  }

  /** Different counter values give different addresses. */
  lemma FloatingAddressesDiffer(address: Bits, mask: string, i: nat, j: nat)
    requires |address| == |mask| && 1 <= CountChar(mask, 'X')
    requires i < j < Pow2(CountChar(mask, 'X'))
    ensures FromBits(FloatingAddress(address, mask, i)) != FromBits(FloatingAddress(address, mask, j))
  {
    var f := CountChar(mask, 'X');
    var positions := Floating(mask, |mask| - 1);
    FloatingCount(mask);
    ChoiceInjective(i, j, f);
    var b :| 0 <= b < f && Choice(i, f)[b] != Choice(j, f)[b];
    FillDiffers(address, positions, Choice(i, f), Choice(j, f), b);
    var bi, bj := FloatingAddress(address, mask, i), FloatingAddress(address, mask, j);
    assert bi != bj;
    if FromBits(bi) == FromBits(bj) {
      FromBitsInjective(bi, bj);
    }
  }

  /** With fewer than 31 floating bits there are `2^k` addresses, and they
      are pairwise different. */
  lemma FloatingAddressesDistinct(address: Bits, mask: string, i: nat, j: nat)
    requires |address| == |mask| && 1 <= CountChar(mask, 'X') < 31
    requires i < j < Pow2(CountChar(mask, 'X'))
    ensures |AddressesAfterFloatingMask(address, mask)| == Pow2(CountChar(mask, 'X'))
    ensures AddressesAfterFloatingMask(address, mask)[i] != AddressesAfterFloatingMask(address, mask)[j]
  {
    FloatingAddressesDiffer(address, mask, i, j);
  }

  /** Every choice of floating bits is some counter value's choice. */
  lemma EveryChoiceCounted(c: Bits)
    requires |c| >= 1
    ensures FromBits(c) < Pow2(|c|) && Choice(FromBits(c), |c|) == c
  {
    ChoiceValue(FromBits(c), |c|);
    FromBitsInjective(Choice(FromBits(c), |c|), c);
  }

  /** Every way of setting the floating bits is among the addresses. */
  lemma FloatingAddressesComplete(address: Bits, mask: string, c: Bits)
    requires |address| == |mask| && 1 <= CountChar(mask, 'X') < 31 && |c| == CountChar(mask, 'X')
    ensures FromBits(c) < |AddressesAfterFloatingMask(address, mask)|
    ensures FloatingAddress(address, mask, FromBits(c)) == (FloatingCount(mask); Fill(address, Floating(mask, |mask| - 1), c))
  {
    EveryChoiceCounted(c);
  }

  // ---------------------------------------------------------------- program

  /** `long.Parse`: an optionally signed decimal in the 64-bit range. */
  function ParseLong(s: string): (r: Option<int>)
    ensures r.Some? ==> -(LongLimit as int) <= r.value < LongLimit && Some(r.value) == ParseInt(s)
  {
    match ParseInt(s)
    case Some(v) => if -(LongLimit as int) <= v < LongLimit then Some(v) else None
    case None => None
  }

  /** The address of `mem[a] = v`: between the first `[` and the next `]`. */
  function ParseAddress(line: string): (r: Result<int>)
    ensures '[' !in line ==> r.Err?
    ensures r.Ok? ==> -(LongLimit as int) <= r.value < LongLimit
  {
    var parts := Split(line, "[");
    SplitNoSeparatorIff(line, '[');
    if |parts| < 2 then Err("Index was outside the bounds of the array")
    else
      match ParseLong(Split(parts[1], "]")[0])
      case Some(a) => Ok(a)
      case None => Err("Input string was not in a correct format")
  }

  /** The text after the first `=`, trimmed: a mask or a value. */
  function AfterEquals(line: string): (r: Result<string>)
    ensures r.Ok? <==> '=' in line
    ensures r.Ok? ==> |r.value| > 0 ==> !IsWhiteSpace(r.value[0]) && !IsWhiteSpace(r.value[|r.value| - 1])
  {
    var parts := Split(line, "=");
    SplitNoSeparatorIff(line, '=');
    if |parts| < 2 then Err("Index was outside the bounds of the array") else Ok(Trim(parts[1]))
  }

  function ParseValue(line: string): (r: Result<int>)
    ensures '=' !in line ==> r.Err?
    ensures r.Ok? ==> -(LongLimit as int) <= r.value < LongLimit
  {
    var text :- AfterEquals(line);
    match ParseLong(text)
    case Some(v) => Ok(v)
    case None => Err("Input string was not in a correct format")
  }

  /** A write line as the puzzle prints it, `mem[a] = v`. */
  function WriteLine(address: nat, value: nat): string {
    "mem[" + NatToString(address) + "] = " + NatToString(value)
  }

  /** A mask line as the puzzle prints it, `mask = m`. */
  function MaskLine(mask: string): string {
    "mask = " + mask
  }

  /** A write line with 64-bit address and value reads back as both. */
  lemma ParseWriteLine(address: nat, value: nat)
    requires address < LongLimit && value < LongLimit
    ensures ParseAddress(WriteLine(address, value)) == Ok(address)
    ensures ParseValue(WriteLine(address, value)) == Ok(value)
  {
    var a, v := NatToString(address), NatToString(value);
    AddressText(a, v);
    ValueText(a, v);
    ParseIntOfIntToString(address);
    ParseIntOfIntToString(value);
  }

  /** The address text of `mem[a] = v` sits between `[` and `]`. */
  lemma AddressText(a: string, v: string)
    requires AllDigits(a) && AllDigits(v)
    ensures var parts := Split("mem[" + a + "] = " + v, "[");
      |parts| == 2 && Split(parts[1], "]")[0] == a
  {
    OpenSplit(a, v);
    NoDigitDelimiter(a, ']');
    assert a + "] = " + v == a + [']'] + (" = " + v);
    SplitAtFirst(a, ']', " = " + v);
  }

  lemma OpenSplit(a: string, v: string)
    requires AllDigits(a) && AllDigits(v)
    ensures Split("mem[" + a + "] = " + v, "[") == ["mem", a + "] = " + v]
  {
    NoDigitDelimiter(a, '[');
    NoDigitDelimiter(v, '[');
    assert "mem[" + a + "] = " + v == "mem" + ['['] + (a + "] = " + v);
    SplitPair("mem", '[', a + "] = " + v);
  }

  /** The value text of `mem[a] = v` follows the only `=`, with one space
      in front that `Trim` removes. */
  lemma ValueText(a: string, v: string)
    requires AllDigits(a) && AllDigits(v) && |v| > 0
    ensures var parts := Split("mem[" + a + "] = " + v, "=");
      |parts| >= 2 && Trim(parts[1]) == v
  {
    EqualsSplit(a, v);
    TrimSpaceDigits(v);
  }

  lemma TrimSpaceDigits(v: string)
    requires AllDigits(v) && |v| > 0
    ensures Trim(" " + v) == v
  {
    assert IsDigit(v[0]) && IsDigit(v[|v| - 1]);
    TrimSpace(v);
  }

  /** One space in front of text that neither starts nor ends with white
      space is what `Trim` removes. */
  lemma TrimSpace(v: string)
    requires |v| > 0 && !IsWhiteSpace(v[0]) && !IsWhiteSpace(v[|v| - 1])
    ensures Trim(" " + v) == v
  {
    assert " " + v + "" == " " + v;
    TrimPadded(" ", v, "");
  }

  lemma EqualsSplit(a: string, v: string)
    requires AllDigits(a) && AllDigits(v)
    ensures Split("mem[" + a + "] = " + v, "=") == ["mem[" + a + "] ", " " + v]
  {
    NoDigitDelimiter(a, '=');
    NoDigitDelimiter(v, '=');
    assert "mem[" + a + "] = " + v == ("mem[" + a + "] ") + ['='] + (" " + v);
    SplitPair("mem[" + a + "] ", '=', " " + v);
  }

  /** A mask line reads back as its mask, for a mask of the characters
      `X`, `0` and `1`. */
  lemma ParseMaskLine(mask: string)
    requires |mask| > 0 && forall i :: 0 <= i < |mask| ==> mask[i] == 'X' || mask[i] == '0' || mask[i] == '1'
    ensures AfterEquals(MaskLine(mask)) == Ok(mask)
  {
    assert '=' !in mask;
    assert MaskLine(mask) == "mask " + ['='] + (" " + mask);
    SplitPair("mask ", '=', " " + mask);
    MaskCharNotWhiteSpace(mask[0]);
    MaskCharNotWhiteSpace(mask[|mask| - 1]);
    TrimSpace(mask);
  }

  lemma MaskCharNotWhiteSpace(c: char)
    requires c == 'X' || c == '0' || c == '1'
    ensures !IsWhiteSpace(c)
  {
  }

  /** The two decoder chips. */
  datatype Decoder = Version1 | Version2

  /** Writes `value` to every address of `addresses`, in order. */
  function StoreAll(mem: Memory, addresses: seq<nat>, value: int): (r: Memory)
    requires Unique(mem)
    ensures Unique(r)
    ensures forall a :: Lookup(r, a) == if a in addresses then Some(value) else Lookup(mem, a)
    decreases |addresses|
  {
    if |addresses| == 0 then mem
    else StoreAll(Store(mem, addresses[0], value), addresses[1..], value)
  }

  /** `CalculateAndSetValue` of either chip. */
  function SetValue(decoder: Decoder, line: string, mask: string, mem: Memory): (r: Result<Memory>)
    requires Unique(mem)
    ensures r.Ok? ==> Unique(r.value)
    ensures r.Ok? ==> ParseAddress(line).Ok? && ParseValue(line).Ok?
    ensures r.Ok? && decoder == Version1 ==>
      var address := ParseAddress(line).value;
      var value := ParseValue(line).value;
      && (forall a :: a != address ==> Lookup(r.value, a) == Lookup(mem, a))
      && ApplyMixedMask(ToBits(value), mask).Some?
      && Lookup(r.value, address) == Some(FromBits(ApplyMixedMask(ToBits(value), mask).value))
    ensures r.Ok? && decoder == Version2 ==>
      var address := ParseAddress(line).value;
      && -(LongLimit as int) <= address < LongLimit
      && AddressesToSet(ToBits(address), mask).Some?
      && forall a :: Lookup(r.value, a) == if a in AddressesToSet(ToBits(address), mask).value
                                           then Some(ParseValue(line).value) else Lookup(mem, a)
  {
    var address :- ParseAddress(line);
    var value :- ParseValue(line);
    if decoder == Version1 then
      match ApplyMixedMask(ToBits(value), mask)
      case None => Err("Array lengths must be the same")
      case Some(bits) => Ok(Store(mem, address, FromBits(bits)))
    else
      if address < -(LongLimit as int) || address >= LongLimit then Err("Value was either too large or too small")
      else
        match AddressesToSet(ToBits(address), mask)
        case None => Err("Array lengths must be the same")
        case Some(addresses) => Ok(StoreAll(mem, addresses, value))
  }

  /** One program line: a line containing `mask` replaces the mask and
      leaves memory alone; any other line writes through the decoder with
      the current mask, which it leaves alone. */
  function ExecuteLine(decoder: Decoder, line: string, mask: string, mem: Memory): (r: Result<(string, Memory)>)
    requires Unique(mem)
    ensures r.Ok? ==> Unique(r.value.1)
    ensures Contains(line, "mask", false) ==> r == (var m :- AfterEquals(line); Ok((m, mem)))
    ensures !Contains(line, "mask", false) ==> r == (var next :- SetValue(decoder, line, mask, mem); Ok((mask, next)))
  {
    if Contains(line, "mask", false) then
      var m :- AfterEquals(line);
      Ok((m, mem))
    else
      var next :- SetValue(decoder, line, mask, mem);
      Ok((mask, next))
  }

  /** `ExecuteProgram` from a given mask and memory, returning both. */
  function Execute(decoder: Decoder, program: seq<string>, mask: string, mem: Memory): (r: Result<(string, Memory)>)
    requires Unique(mem)
    ensures r.Ok? ==> Unique(r.value.1)
    ensures |program| == 0 ==> r == Ok((mask, mem))
    decreases |program|
  {
    if |program| == 0 then Ok((mask, mem))
    else
      var (m, next) :- ExecuteLine(decoder, program[0], mask, mem);
      Execute(decoder, program[1..], m, next)
  }

  /** Running a concatenation is running the first part and then the
      second from the mask and memory the first left: writes of the second
      part overwrite those of the first, under the latest mask. */
  lemma {:induction false} ExecuteAppend(decoder: Decoder, a: seq<string>, b: seq<string>, mask: string, mem: Memory)
    requires Unique(mem)
    ensures Execute(decoder, a + b, mask, mem)
         == (var (m, next) :- Execute(decoder, a, mask, mem); Execute(decoder, b, m, next))
    decreases |a|
  {
    if |a| == 0 {
      assert a + b == b;
    } else {
      assert (a + b)[0] == a[0] && (a + b)[1..] == a[1..] + b;
      var step := ExecuteLine(decoder, a[0], mask, mem);
      if step.Ok? {
        ExecuteAppend(decoder, a[1..], b, step.value.0, step.value.1);
      }
    }
  }

  /** A write before any mask line meets the empty mask and throws. */
  lemma WriteBeforeMaskFails(value: int)
    requires 0 <= value < Limit
    ensures ApplyMixedMask(ToBits(value), "").None?
  {
  }

  /** `SumOfAddressValues` after `ExecuteProgram`, which starts from the
      empty mask and an empty address space. */
  function Solve(decoder: Decoder, program: seq<string>): (r: Result<int>)
    ensures |program| == 0 ==> r == Ok(0)
    ensures r.Ok? <==> Execute(decoder, program, "", []).Ok?
    ensures r.Ok? ==> r.value == Total(Execute(decoder, program, "", []).value.1)
  {
    var (_, mem) :- Execute(decoder, program, "", []);
    Ok(Total(mem))
  }

  /** Under the version 1 chip, a write line after a program changes the
      answer by the masked value written minus the value it overwrites. */
  lemma WriteChangesSum(program: seq<string>, line: string)
    requires Execute(Version1, program, "", []).Ok?
    requires !Contains(line, "mask", false)
    ensures var (mask, mem) := Execute(Version1, program, "", []).value;
      Solve(Version1, program + [line]).Ok? ==>
        && ParseAddress(line).Ok? && ParseValue(line).Ok?
        && ApplyMixedMask(ToBits(ParseValue(line).value), mask).Some?
        && Solve(Version1, program + [line]).value
           == Solve(Version1, program).value
              + FromBits(ApplyMixedMask(ToBits(ParseValue(line).value), mask).value)
              - (match Lookup(mem, ParseAddress(line).value) case Some(v) => v case None => 0)
  {
    ExecuteAppend(Version1, program, [line], "", []);
    var (mask, mem) := Execute(Version1, program, "", []).value;
    assert Execute(Version1, [line], mask, mem)
        == (var (m, next) :- ExecuteLine(Version1, line, mask, mem); Execute(Version1, [], m, next));
  }

  /** Part 1: the sum the version 1 chip leaves in memory. */
  function Part1(program: seq<string>): (r: Result<int>)
    ensures |program| == 0 ==> r == Ok(0)
    ensures r.Ok? <==> Execute(Version1, program, "", []).Ok?
    ensures r.Ok? ==> r.value == Total(Execute(Version1, program, "", []).value.1)
  {
    Solve(Version1, program)
  }

  /** Part 2: the sum the version 2 chip leaves in memory. */
  function Part2(program: seq<string>): (r: Result<int>)
    ensures |program| == 0 ==> r == Ok(0)
    ensures r.Ok? <==> Execute(Version2, program, "", []).Ok?
    ensures r.Ok? ==> r.value == Total(Execute(Version2, program, "", []).value.1)
  {
    Solve(Version2, program)
  }
}
