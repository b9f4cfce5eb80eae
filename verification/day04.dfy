/** Day 4, Passport Processing: passports are blank-line separated groups of
    `key:value` fields; part 1 wants the seven required fields, part 2 also
    checks each of their values against a rule. */
module Day4 {
  import opened Wrappers
  import opened Strings
  import Seqs

  type Fields = map<string, string>

  /** `RequiredFields`, in the order the validator checks them. It is also the
      order in which part 2's rule dictionary is filled. */
  const Required: seq<string> := ["byr", "iyr", "eyr", "hgt", "hcl", "ecl", "pid"]

  const EyeColours: seq<string> := ["amb", "blu", "brn", "gry", "grn", "hzl", "oth"]

  // ------------------------------------------------------------ parsing

  /** `field.Split(':')` read as `[0]` and `[1]`; a piece without a colon
      throws. */
  function Field(piece: string): (r: Option<(string, string)>)
    ensures r.Some? <==> ':' in piece
  {
    var kv := Split(piece, ":");
    SplitNoSeparatorIff(piece, ':');
    if |kv| < 2 then None else Some((kv[0], kv[1]))
  }

  function Key(piece: string): string
    requires ':' in piece
  {
    Field(piece).value.0
  }

  /** `Fields.Add(key, value)` for each piece in turn: a missing colon or a
      repeated key throws. */
  function AddFields(pieces: seq<string>, acc: Fields): (r: Result<Fields>)
    ensures r.Ok? ==> acc.Keys <= r.value.Keys && |r.value| == |acc| + |pieces|
  {
    if |pieces| == 0 then Ok(acc)
    else
      match Field(pieces[0])
      case None => Err("Index was outside the bounds of the array")
      case Some((k, v)) =>
        if k in acc then Err("An item with the same key has already been added")
        else AddFields(pieces[1..], acc[k := v])
  }

  /** Every piece has a colon, and the keys are pairwise distinct and not
      yet in `acc`. */
  predicate FreshKeys(pieces: seq<string>, acc: Fields) {
    (forall i :: 0 <= i < |pieces| ==> ':' in pieces[i])
    && (forall i, j :: 0 <= i < j < |pieces| ==> Key(pieces[i]) != Key(pieces[j]))
    && (forall i :: 0 <= i < |pieces| ==> Key(pieces[i]) !in acc)
  }

  lemma FreshKeysCons(pieces: seq<string>, acc: Fields)
    requires |pieces| > 0 && ':' in pieces[0]
    ensures FreshKeys(pieces, acc) <==>
      Key(pieces[0]) !in acc && FreshKeys(pieces[1..], acc[Key(pieces[0]) := Field(pieces[0]).value.1])
  {
    var rest := pieces[1..];
    var k := Key(pieces[0]);
    var acc' := acc[k := Field(pieces[0]).value.1];
    assert forall i :: 1 <= i < |pieces| ==> pieces[i] == rest[i - 1];
    if FreshKeys(pieces, acc) {
      forall i | 0 <= i < |rest| ensures Key(rest[i]) !in acc' {
        assert Key(pieces[0]) != Key(pieces[i + 1]);
      }
    }
    if k !in acc && FreshKeys(rest, acc') {
      forall i, j | 0 <= i < j < |pieces| ensures Key(pieces[i]) != Key(pieces[j]) {
        if i > 0 {
          assert Key(rest[i - 1]) != Key(rest[j - 1]);
        } else {
          assert Key(rest[j - 1]) !in acc';
        }
      }
      forall i | 0 <= i < |pieces| ensures Key(pieces[i]) !in acc {
        if i > 0 {
          assert Key(rest[i - 1]) !in acc';
        }
      }
    }
  }

  /** Adding the fields succeeds exactly when every piece has a colon and all
      keys are new and pairwise distinct. */
  lemma {:induction false} AddFieldsOk(pieces: seq<string>, acc: Fields)
    ensures AddFields(pieces, acc).Ok? <==> FreshKeys(pieces, acc)
  {
    if |pieces| > 0 && ':' in pieces[0] {
      var (k, v) := Field(pieces[0]).value;
      AddFieldsOk(pieces[1..], acc[k := v]);
      FreshKeysCons(pieces, acc);
    }
  }

  /** A successful parse keeps `acc` and maps each key to its piece's value. */
  lemma {:induction false} AddFieldsContents(pieces: seq<string>, acc: Fields)
    requires AddFields(pieces, acc).Ok?
    ensures forall k :: k in acc ==> AddFields(pieces, acc).value[k] == acc[k]
    ensures forall i :: 0 <= i < |pieces| ==> Recorded(AddFields(pieces, acc).value, pieces[i])
  {
    if |pieces| > 0 {
      var rest := pieces[1..];
      var (k, v) := Field(pieces[0]).value;
      AddFieldsUnfold(pieces, acc);
      AddFieldsContents(rest, acc[k := v]);
      assert Recorded(AddFields(pieces, acc).value, pieces[0]);
      assert forall i :: 1 <= i < |pieces| ==> pieces[i] == rest[i - 1];
    }
  }

  /** The piece has a colon, and its key holds its value in `m`. */
  predicate Recorded(m: Fields, piece: string) {
    ':' in piece && Key(piece) in m && m[Key(piece)] == Field(piece).value.1
  }

  lemma AddFieldsUnfold(pieces: seq<string>, acc: Fields)
    requires |pieces| > 0 && AddFields(pieces, acc).Ok?
    ensures Field(pieces[0]).Some? && Field(pieces[0]).value.0 !in acc
    ensures var (k, v) := Field(pieces[0]).value;
      AddFields(pieces, acc) == AddFields(pieces[1..], acc[k := v])
  {
  }


  /** `Passport.Build`: each line was appended with a leading space; the
      result is split on spaces with empty entries removed. */
  function ParsePassport(lines: seq<string>): (r: Result<Fields>)
    ensures r.Ok? <==> FreshKeys(Pieces(lines), map[])
    ensures r.Ok? ==> |r.value| == |Pieces(lines)|
                      && forall i :: 0 <= i < |Pieces(lines)| ==> Recorded(r.value, Pieces(lines)[i])
  {
    var fields := AddFields(Pieces(lines), map[]);
    AddFieldsOk(Pieces(lines), map[]);
    if fields.Ok? then AddFieldsContents(Pieces(lines), map[]); fields else fields
  }

  /** The passport's `key:value` pieces: its lines joined by spaces and
      split on them, empty entries removed. */
  function Pieces(lines: seq<string>): seq<string> {
    NonEmpty(Split(Joined(lines), " "))
  }

  function Joined(lines: seq<string>): string {
    if |lines| == 0 then "" else " " + lines[0] + Joined(lines[1..])
  }

  /** `ParsePassports`: one passport per paragraph, the last included. */
  function ParsePassports(input: seq<string>): Result<seq<Fields>> {
    ParseAll(Paragraphs(input))
  }

  function ParseAll(groups: seq<seq<string>>): (r: Result<seq<Fields>>)
    ensures r.Ok? ==> |r.value| == |groups|
    ensures r.Ok? ==> forall k :: 0 <= k < |groups| ==> ParsePassport(groups[k]) == Ok(r.value[k])
    ensures r.Err? <==> exists k :: 0 <= k < |groups| && ParsePassport(groups[k]).Err?
  {
    if |groups| == 0 then Ok([])
    else
      var first :- ParsePassport(groups[0]);
      var rest :- ParseAll(groups[1..]);
      Ok([first] + rest)
  }

  // ------------------------------------------------------------ rules

  /** `int.TryParse`. */
  function TryParse(x: string): Option<int> {
    ParseInt32(x)
  }

  predicate InRange(x: string, lo: int, hi: int) {
    TryParse(x).Some? && lo <= TryParse(x).value <= hi
  }

  predicate IsLowerHex(c: char) {
    ('0' <= c <= '9') || ('a' <= c <= 'f')
  }

  /** The height rule: a value containing `cm` has every `cm` removed and must
      then read 150 to 193; otherwise one containing `in` has every `in` removed
      and must read 59 to 76. */
  function Height(x: string): (r: bool)
    ensures !Contains(x, "cm", false) && !Contains(x, "in", false) ==> !r
    ensures Contains(x, "cm", false) ==>
      (r <==> exists h :: 150 <= h <= 193 && ParseInt32(Replace(x, "cm", "", false)) == Some(h))
    ensures !Contains(x, "cm", false) && Contains(x, "in", false) ==>
      (r <==> exists h :: 59 <= h <= 76 && ParseInt32(Replace(x, "in", "", false)) == Some(h))
  {
    if Contains(x, "cm", false) then InRange(Replace(x, "cm", "", false), 150, 193)
    else if Contains(x, "in", false) then InRange(Replace(x, "in", "", false), 59, 76)
    else false
  }

  /** The rule for one field, dispatched on its key. */
  function Rule(key: string, x: string): (r: Result<bool>)
    ensures r.Err? <==> key == "hcl" && x == ""
  {
    if key == "byr" then Ok(InRange(x, 1920, 2002))
    else if key == "iyr" then Ok(InRange(x, 2010, 2020))
    else if key == "eyr" then Ok(InRange(x, 2020, 2030))
    else if key == "hgt" then Ok(Height(x))
    else if key == "hcl" then HairColour(x)
    else if key == "ecl" then Ok(EyeColour(x))
    else if key == "pid" then Ok(PassportId(x))
    else Ok(true)
  }

  /** The hair-colour rule reads `x.First()`, which throws on an empty value;
      otherwise it wants `#` and six lower-case hex digits. */
  function HairColour(x: string): (r: Result<bool>)
    ensures r.Err? <==> x == ""
    ensures r.Ok? ==> (r.value <==> |x| == 7 && x[0] == '#' && forall k :: 1 <= k < 7 ==> IsLowerHex(x[k]))
  {
    if |x| == 0 then Err("Sequence contains no elements")
    else
      var rest := x[1..];
      assert forall k :: 1 <= k < |x| ==> x[k] == rest[k - 1];
      Ok(x[0] == '#' && |rest| == 6 && forall k :: 0 <= k < |rest| ==> IsLowerHex(rest[k]))
  }

  /** Exactly one of the listed colours equals the value. */
  function EyeColour(x: string): (r: bool)
    ensures r <==> x in EyeColours
  {
    EyeColoursDistinct();
    CountEqual(EyeColours, x) == 1
  }

  /** `int.TryParse(x, out _) && x.Length == 9`: nine characters that read
      as a signed decimal (so `-12345678` passes too). */
  function PassportId(x: string): (r: bool)
    ensures r <==> |x| == 9 && ParseInt(x).Some?
  {
    NineDigitsFit(x);
    TryParse(x).Some? && |x| == 9
  }

  /** `colours.Count(color => color.Equals(x))`. */
  function CountEqual(xs: seq<string>, x: string): (n: nat)
    ensures n == 0 <==> x !in xs
    ensures Distinct(xs) ==> n <= 1
  {
    if |xs| == 0 then 0
    else
      assert Distinct(xs) ==> Distinct(xs[1..]) && xs[0] !in xs[1..];
      (if xs[0] == x then 1 else 0) + CountEqual(xs[1..], x)
  }

  predicate Distinct(xs: seq<string>) {
    forall i, j :: 0 <= i < j < |xs| ==> xs[i] != xs[j]
  }

  lemma EyeColoursDistinct()
    ensures Distinct(EyeColours)
  {
    forall i, j | 0 <= i < j < |EyeColours| ensures EyeColours[i] != EyeColours[j] {
      var a, b := EyeColours[i], EyeColours[j];
      assert a[0] != b[0] || a[1] != b[1] || a[2] != b[2];
    }
  }

  /** A string of nine characters never leaves the 32-bit range, so for
      `pid` the range check of `int.TryParse` never matters. */
  lemma NineDigitsFit(x: string)
    ensures |x| == 9 && ParseInt(x).Some? ==> TryParse(x).Some?
  {
    if |x| == 9 && ParseInt(x).Some? {
      if AllDigits(x) {
        DigitsBound(x);
      } else {
        DigitsBound(x[1..]);
      }
    }
  }

  lemma {:induction false} DigitsBound(s: string)
    requires AllDigits(s)
    ensures DigitsValue(s) < Pow10(|s|)
  {
    if |s| > 0 {
      DigitsBound(s[..|s| - 1]);
    }
  }

  function Pow10(n: nat): nat {
    if n == 0 then 1 else 10 * Pow10(n - 1)
  }

  /** `FollowsRules`: the rules in dictionary order, stopping at the first
      that fails; a rule whose field is missing throws. */
  function FollowsRules(fields: Fields, keys: seq<string>): (r: Result<bool>)
    ensures r == Ok(true) <==> forall k :: 0 <= k < |keys| ==> keys[k] in fields && Rule(keys[k], fields[keys[k]]) == Ok(true)
    ensures r.Err? ==> exists k :: 0 <= k < |keys| && (keys[k] !in fields || (keys[k] == "hcl" && fields[keys[k]] == ""))
  {
    if |keys| == 0 then Ok(true)
    else if keys[0] !in fields then Err("The given key was not present in the dictionary")
    else
      var ok :- Rule(keys[0], fields[keys[0]]);
      if !ok then Ok(false)
      else
        var r := FollowsRules(fields, keys[1..]);
        assert forall k :: 1 <= k < |keys| ==> keys[k] == keys[1..][k - 1];
        r
  }

  predicate ContainsRequired(fields: Fields) {
    forall k :: 0 <= k < |Required| ==> Required[k] in fields
  }

  /** `PassportValidator.IsValid`; part 1 passes no rule dictionary. Part 2
      throws only for a passport whose hair colour is empty. */
  function IsValid(fields: Fields, withRules: bool): (r: Result<bool>)
    ensures !withRules ==> r == Ok(ContainsRequired(fields))
    ensures r.Err? ==> withRules && "hcl" in fields && fields["hcl"] == ""
    ensures withRules ==> (r == Ok(true) <==>
      ContainsRequired(fields) && forall k :: 0 <= k < |Required| ==> Rule(Required[k], fields[Required[k]]) == Ok(true))
  {
    if !ContainsRequired(fields) then Ok(false)
    else if !withRules then Ok(true)
    else FollowsRules(fields, Required)
  }

  /** Part 2 accepts only passports part 1 accepts. */
  lemma RulesOnlyRestrict(fields: Fields)
    ensures IsValid(fields, true) == Ok(true) ==> IsValid(fields, false) == Ok(true)
  {
  }

  function CountValid(passports: seq<Fields>, withRules: bool): (r: Result<nat>)
    ensures r.Ok? ==> r.value <= |passports|
    ensures !withRules ==> r.Ok?
    ensures r.Err? <==> exists k :: 0 <= k < |passports| && IsValid(passports[k], withRules).Err?
    ensures r.Ok? ==> r.value == |Seqs.Where(passports, p => IsValid(p, withRules) == Ok(true))|
  {
    if |passports| == 0 then
      assert Seqs.Where(passports, p => IsValid(p, withRules) == Ok(true)) == {};
      Ok(0)
    else
      Seqs.WhereCons(passports, (p: Fields) => IsValid(p, withRules) == Ok(true));
      assert forall k :: 1 <= k < |passports| ==> passports[1..][k - 1] == passports[k];
      var ok :- IsValid(passports[0], withRules);
      var rest :- CountValid(passports[1..], withRules);
      Ok((if ok then 1 else 0) + rest)
  }

  /** Every passport part 2 counts, part 1 counts too. */
  lemma {:induction false} Part2AtMostPart1(passports: seq<Fields>)
    requires CountValid(passports, true).Ok?
    ensures CountValid(passports, true).value <= CountValid(passports, false).value
  {
    if |passports| > 0 {
      RulesOnlyRestrict(passports[0]);
      Part2AtMostPart1(passports[1..]);
    }
  }
}
