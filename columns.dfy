/**
 * The pure helpers behind the tracker's table columns: the health tag colour,
 * the species filter, the age sorter and the "Unknown" display fallbacks.
 */
module Columns {
  import opened Wrappers
  import opened Entity

  // ---------------------------------------------------------------------
  // Health tag colour
  // ---------------------------------------------------------------------

  datatype TagColor = Green | Orange | Red | Blue

  /**
   * One character of `String.prototype.toLowerCase`, as far as comparisons
   * with lower-case ASCII words can observe it: ASCII capitals map to their
   * small letters and U+212A KELVIN SIGN maps to 'k'. No other character
   * lower-cases to an ASCII letter, so every other character is kept.
   */
  function LowerChar(c: char): char {
    if 'A' <= c <= 'Z' then (c as int + 32) as char
    else if c == '\U{212A}' then 'k'
    else c
  }

  function ToLower(s: string): string {
    seq(|s|, i requires 0 <= i < |s| => LowerChar(s[i]))
  }

  predicate LowerAsciiWord(w: string) {
    forall i :: 0 <= i < |w| ==> 'a' <= w[i] <= 'z'
  }

  /** The characters that lower-case to the small ASCII letter `c`. */
  predicate SpellsLetter(x: char, c: char)
    requires 'a' <= c <= 'z'
  {
    x == c || x as int == c as int - 32 || (c == 'k' && x == '\U{212A}')
  }

  /** `s` spells the lower-case ASCII word `w` in some mixture of letter cases. */
  predicate SameIgnoringCase(s: string, w: string)
    requires LowerAsciiWord(w)
  {
    |s| == |w| && forall i :: 0 <= i < |s| ==> SpellsLetter(s[i], w[i])
  }

  lemma LowerCharSpells(x: char, c: char)
    requires 'a' <= c <= 'z'
    ensures LowerChar(x) == c <==> SpellsLetter(x, c)
  {
  }

  /** Lower-casing and comparing is comparing ignoring case. */
  lemma ToLowerMatches(s: string, w: string)
    requires LowerAsciiWord(w)
    ensures ToLower(s) == w <==> SameIgnoringCase(s, w)
  {
    if |s| == |w| {
      forall i | 0 <= i < |s| ensures ToLower(s)[i] == w[i] <==> SpellsLetter(s[i], w[i]) {
        LowerCharSpells(s[i], w[i]);
      }
      if SameIgnoringCase(s, w) {
        assert ToLower(s) == w;
      }
    }
  }

  /** The three health words the tag colours. */
  predicate IsHealthWord(h: Option<string>, w: string)
    requires LowerAsciiWord(w)
  {
    h.Some? && SameIgnoringCase(h.value, w)
  }

  /** `getHealthColor(health)`: a missing value goes to the default branch. */
  function HealthColor(health: Option<string>): (r: TagColor)
    ensures r == Green <==> IsHealthWord(health, "healthy")
    ensures r == Orange <==> IsHealthWord(health, "sick")
    ensures r == Red <==> IsHealthWord(health, "injured")
    ensures r == Blue <==>
      !IsHealthWord(health, "healthy") && !IsHealthWord(health, "sick") && !IsHealthWord(health, "injured")
  {
    match health
    case None => Blue
    case Some(h) =>
      ToLowerMatches(h, "healthy");
      ToLowerMatches(h, "sick");
      ToLowerMatches(h, "injured");
      var lower := ToLower(h);
      if lower == "healthy" then Green
      else if lower == "sick" then Orange
      else if lower == "injured" then Red
      else Blue
  }

  /** The select's three health words get their colours. */
  lemma HealthColorOfSelectWords()
    ensures HealthColor(Some("Healthy")) == Green
    ensures HealthColor(Some("Sick")) == Orange
    ensures HealthColor(Some("Injured")) == Red
  {
    assert SameIgnoringCase("Healthy", "healthy");
    assert SameIgnoringCase("Sick", "sick");
    assert SameIgnoringCase("Injured", "injured");
  }

  /** The select's "Unknown", and the empty string, fall to the default colour. */
  lemma HealthColorOfUnknown()
    ensures HealthColor(Some("Unknown")) == Blue
    ensures HealthColor(Some("")) == Blue
  {
    assert "Unknown"[0] == 'U' && "healthy"[0] == 'h' && "injured"[0] == 'i';
    assert !SpellsLetter('U', 'h') && !SpellsLetter('U', 'i');
  }

  /** `toLowerCase` turns the Kelvin sign into 'k', so this spelling is orange. */
  lemma HealthColorOfKelvinSick()
    ensures HealthColor(Some("SIC\U{212A}")) == Orange
  {
    assert SameIgnoringCase("SIC\U{212A}", "sick");
  }

  // ---------------------------------------------------------------------
  // JavaScript truthiness and the "Unknown" fallbacks
  // ---------------------------------------------------------------------

  /** A string value is truthy when present and not empty. */
  predicate TruthyText(s: Option<string>) {
    s.Some? && s.value != ""
  }

  /** A number value is truthy when present and not zero. */
  predicate TruthyNumber(n: Option<int>) {
    n.Some? && n.value != 0
  }

  /** The health column's text, `health || 'Unknown'`. */
  function HealthLabel(health: Option<string>): (r: string)
    ensures r == "Unknown" <==> !TruthyText(health) || health == Some("Unknown")
    ensures TruthyText(health) ==> r == health.value
    ensures r != ""
  {
    if TruthyText(health) then health.value else "Unknown"
  }

  /** The last-seen column: `date ? localized(date) : 'Unknown'`; the locale's
      date formatting is a parameter. */
  function LastSeenLabel(date: Option<string>, localized: string -> string): (r: string)
    ensures !TruthyText(date) ==> r == "Unknown"
    ensures TruthyText(date) ==> r == localized(date.value)
  {
    if TruthyText(date) then localized(date.value) else "Unknown"
  }

  // ---------------------------------------------------------------------
  // Decimal text of an integer, as a template literal writes it
  // ---------------------------------------------------------------------

  predicate IsDigit(c: char) {
    '0' <= c <= '9'
  }

  predicate AllDigits(s: string) {
    forall i :: 0 <= i < |s| ==> IsDigit(s[i])
  }

  function DigitChar(d: nat): (c: char)
    requires d < 10
    ensures IsDigit(c) && c as int - '0' as int == d
  {
    ('0' as int + d) as char
  }

  /** Decimal digits of `n`, without leading zeros. */
  function NatToDecimal(n: nat): (r: string)
    ensures r != [] && AllDigits(r)
    ensures r[0] == '0' ==> n == 0 && r == "0"
  {
    if n < 10 then [DigitChar(n)] else NatToDecimal(n / 10) + [DigitChar(n % 10)]
  }

  function IntToDecimal(i: int): (r: string) {
    if i < 0 then "-" + NatToDecimal(-i) else NatToDecimal(i)
  }

  /** Reads the digits back; the inverse of `NatToDecimal`. */
  function DecimalValue(s: string): nat
    requires AllDigits(s)
  {
    if s == [] then 0 else DecimalValue(s[..|s| - 1]) * 10 + (s[|s| - 1] as int - '0' as int)
  }

  function ParseDecimal(s: string): int
    requires s != [] && (s[0] == '-' || IsDigit(s[0])) && AllDigits(s[1..])
  {
    if s[0] == '-' then 0 - DecimalValue(s[1..]) else DecimalValue(s)
  }

  lemma {:induction false} NatToDecimalRoundTrip(n: nat)
    ensures DecimalValue(NatToDecimal(n)) == n
  {
    if n >= 10 {
      NatToDecimalRoundTrip(n / 10);
      var r := NatToDecimal(n);
      assert r[..|r| - 1] == NatToDecimal(n / 10);
    }
  }

  /** Every integer's decimal text reads back as that integer. */
  lemma IntToDecimalRoundTrip(i: int)
    ensures var s := IntToDecimal(i);
      s != [] && (s[0] == '-' || IsDigit(s[0])) && AllDigits(s[1..]) && ParseDecimal(s) == i
  {
    if i < 0 {
      NatToDecimalRoundTrip(-i);
      assert IntToDecimal(i)[1..] == NatToDecimal(-i);
    } else {
      NatToDecimalRoundTrip(i);
    }
  }

  lemma IntToDecimalInjective(i: int, j: int)
    requires IntToDecimal(i) == IntToDecimal(j)
    ensures i == j
  {
    IntToDecimalRoundTrip(i);
    IntToDecimalRoundTrip(j);
  }

  // ---------------------------------------------------------------------
  // The age column
  // ---------------------------------------------------------------------

  const Years: string := " years"

  /** The age column's text: `age ? `${age} years` : 'Unknown'`. */
  function AgeLabel(age: Option<int>): (r: string)
    ensures r == "Unknown" <==> !TruthyNumber(age)
    ensures TruthyNumber(age) ==> r == IntToDecimal(age.value) + Years
  {
    if TruthyNumber(age) then
      var r := IntToDecimal(age.value) + Years;
      assert r[|r| - 1] == 's';
      r
    else "Unknown"
  }

  /** Two truthy ages are shown the same only when they are the same age. */
  lemma AgeLabelInjective(a: Option<int>, b: Option<int>)
    requires TruthyNumber(a) && TruthyNumber(b)
    requires AgeLabel(a) == AgeLabel(b)
    ensures a == b
  {
    var sa, sb := IntToDecimal(a.value), IntToDecimal(b.value);
    assert sa == (sa + Years)[..|sa + Years| - |Years|];
    assert sb == (sb + Years)[..|sb + Years| - |Years|];
    IntToDecimalInjective(a.value, b.value);
  }

  /** The sort key of the age sorter: `a.age || 0`. */
  function AgeKey(a: Animal): (k: int)
    ensures !TruthyNumber(a.age) ==> k == 0
    ensures a.age.Some? ==> k == a.age.value
  {
    if TruthyNumber(a.age) then a.age.value else 0
  }

  /** The age sorter: `(a.age || 0) - (b.age || 0)`. */
  function AgeCompare(a: Animal, b: Animal): (c: int)
    ensures c < 0 <==> AgeKey(a) < AgeKey(b)
    ensures c == 0 <==> AgeKey(a) == AgeKey(b)
  {
    AgeKey(a) - AgeKey(b)
  }

  /** "Sorts before or with", as the table reads a comparator's sign. */
  predicate AgeAtMost(a: Animal, b: Animal) {
    AgeCompare(a, b) <= 0
  }

  lemma AgeCompareAntisymmetric(a: Animal, b: Animal)
    ensures AgeCompare(a, b) == -AgeCompare(b, a)
  {
  }

  lemma AgeCompareTransitive(a: Animal, b: Animal, c: Animal)
    ensures AgeAtMost(a, b) && AgeAtMost(b, c) ==> AgeAtMost(a, c)
    ensures AgeCompare(a, b) < 0 && AgeCompare(b, c) < 0 ==> AgeCompare(a, c) < 0
  {
  }

  lemma AgeCompareTotal(a: Animal, b: Animal)
    ensures AgeAtMost(a, b) || AgeAtMost(b, a)
  {
  }

  /** A missing age and an age of 0 sort exactly like each other. */
  lemma AgeCompareMissingIsZero(a: Animal, b: Animal)
    requires a.age == None
    ensures AgeCompare(a, b) == AgeCompare(a.(age := Some(0)), b)
    ensures AgeCompare(a, b) == -AgeKey(b)
  {
  }

  // ---------------------------------------------------------------------
  // The species filter
  // ---------------------------------------------------------------------

  datatype FilterOption = FilterOption(text: string, value: string)

  /** `animals.map(a => a.species)`. */
  function SpeciesOf(animals: seq<Animal>): (r: seq<string>)
    ensures |r| == |animals| && forall i :: 0 <= i < |r| ==> r[i] == animals[i].species
  {
    seq(|animals|, i requires 0 <= i < |animals| => animals[i].species)
  }

  predicate NoDuplicates<T(==)>(s: seq<T>) {
    forall i, j :: 0 <= i < j < |s| ==> s[i] != s[j]
  }

  /** Index of the first occurrence of `x` in `s`. */
  function FirstIndex<T(==)>(s: seq<T>, x: T): (k: nat)
    requires x in s
    ensures k < |s| && s[k] == x && x !in s[..k]
  {
    if s[0] == x then 0 else 1 + FirstIndex(s[1..], x)
  }

  lemma FirstIndexLeast<T>(s: seq<T>, x: T, j: nat)
    requires j < |s| && s[j] == x
    ensures FirstIndex(s, x) <= j
  {
  }

  lemma FirstIndexOfPrefix<T>(s: seq<T>, x: T, y: T)
    requires y in s
    ensures FirstIndex(s + [x], y) == FirstIndex(s, y)
  {
    var k := FirstIndex(s, y);
    FirstIndexLeast(s + [x], y, k);
    var k' := FirstIndex(s + [x], y);
    FirstIndexLeast(s, y, k');
  }

  /**
   * `[...new Set(s)]`: a set keeps insertion order, so each value appears
   * once, where it first occurs in `s`.
   */
  function Distinct(s: seq<string>): (r: seq<string>)
    ensures NoDuplicates(r)
    ensures forall x :: x in r <==> x in s
    ensures InFirstOccurrenceOrder(s, r)
  {
    if s == [] then []
    else
      var init, x := s[..|s| - 1], s[|s| - 1];
      assert s == init + [x];
      var d := Distinct(init);
      forall y | y in init ensures FirstIndex(s, y) == FirstIndex(init, y) {
        FirstIndexOfPrefix(init, x, y);
      }
      if x in d then d
      else
        assert FirstIndex(s, x) == |init| by {
          assert x !in init;
        }
        d + [x]
  }

  /** `r` lists values of `s` in order of their first occurrence in `s`. */
  predicate InFirstOccurrenceOrder(s: seq<string>, r: seq<string>)
    requires forall x :: x in r ==> x in s
  {
    forall i, j :: 0 <= i < j < |r| ==> FirstIndex(s, r[i]) < FirstIndex(s, r[j])
  }

  lemma HeadFirstOccurs(s: seq<string>, r: seq<string>, x: string)
    requires forall y :: y in r ==> y in s
    requires InFirstOccurrenceOrder(s, r) && x in r
    ensures FirstIndex(s, r[0]) <= FirstIndex(s, x)
  {
    var j :| 0 <= j < |r| && r[j] == x;
    if j > 0 {
      assert FirstIndex(s, r[0]) < FirstIndex(s, r[j]);
    }
  }

  lemma EmptyOrHasHead(r: seq<string>)
    ensures r == [] || r[0] in r
  {
  }

  lemma {:induction false} FirstOccurrenceOrderUnique(s: seq<string>, r1: seq<string>, r2: seq<string>)
    requires NoDuplicates(r1) && NoDuplicates(r2)
    requires forall x :: x in r1 <==> x in r2
    requires forall x :: x in r1 ==> x in s
    requires InFirstOccurrenceOrder(s, r1) && InFirstOccurrenceOrder(s, r2)
    ensures r1 == r2
    decreases |r1|
  {
    if r1 == [] {
      EmptyOrHasHead(r2);
    } else {
      assert r1[0] in r2;
      var a, b := r1[0], r2[0];
      HeadFirstOccurs(s, r1, b);
      HeadFirstOccurs(s, r2, a);
      assert a == s[FirstIndex(s, a)] == b;
      var t1, t2 := r1[1..], r2[1..];
      forall x ensures x in t1 <==> x in t2 {
        assert x in t1 <==> x in r1 && x != a;
        assert x in t2 <==> x in r2 && x != b;
      }
      FirstOccurrenceOrderUnique(s, t1, t2);
      assert r1 == [a] + t1 && r2 == [b] + t2;
    }
  }

  /**
   * `Distinct` is the only duplicate-free sequence of the values of `s` that
   * lists them in order of first occurrence.
   */
  lemma DistinctIsUnique(s: seq<string>, r: seq<string>)
    requires NoDuplicates(r)
    requires forall x :: x in r <==> x in s
    requires InFirstOccurrenceOrder(s, r)
    ensures r == Distinct(s)
  {
    FirstOccurrenceOrderUnique(s, r, Distinct(s));
  }

  /** The species column's `filters`: one option per distinct species. */
  function SpeciesFilters(animals: seq<Animal>): (r: seq<FilterOption>)
    ensures var d := Distinct(SpeciesOf(animals));
      |r| == |d| && forall i :: 0 <= i < |r| ==> r[i].text == d[i] && r[i].value == d[i]
  {
    var species := Distinct(SpeciesOf(animals));
    seq(|species|, i requires 0 <= i < |species| => FilterOption(species[i], species[i]))
  }

  /** The species column's `onFilter`. */
  predicate OnFilter(value: string, record: Animal) {
    record.species == value
  }

  /** `r` is `s` with some elements left out, the rest in their order. */
  predicate IsSubsequence<T(==)>(r: seq<T>, s: seq<T>)
    decreases |r| + |s|
  {
    r == [] || (s != [] && ((r[0] == s[0] && IsSubsequence(r[1..], s[1..])) || IsSubsequence(r, s[1..])))
  }

  /** The rows left by selecting filter value `value`, in table order. */
  function FilterBy(animals: seq<Animal>, value: string): (r: seq<Animal>)
    ensures forall x :: multiset(r)[x] == if OnFilter(value, x) then multiset(animals)[x] else 0
    ensures IsSubsequence(r, animals)
  {
    if animals == [] then []
    else
      var rest := FilterBy(animals[1..], value);
      assert animals == [animals[0]] + animals[1..];
      if OnFilter(value, animals[0]) then
        assert ([animals[0]] + rest)[1..] == rest;
        [animals[0]] + rest
      else rest
  }

  /** Each option is offered once, in order of the species' first appearance. */
  lemma SpeciesFiltersOrdered(animals: seq<Animal>)
    ensures var opts := SpeciesFilters(animals);
      && (forall i, j :: 0 <= i < j < |opts| ==> opts[i].value != opts[j].value)
      && (forall i, j :: 0 <= i < j < |opts| ==>
            FirstIndex(SpeciesOf(animals), opts[i].value) < FirstIndex(SpeciesOf(animals), opts[j].value))
  {
  }

  /** Every option is the species of some loaded record. */
  lemma SpeciesFiltersSound(animals: seq<Animal>, i: nat)
    requires i < |SpeciesFilters(animals)|
    ensures exists k :: 0 <= k < |animals| && animals[k].species == SpeciesFilters(animals)[i].value
  {
    var species := SpeciesOf(animals);
    var d := Distinct(species);
    assert d[i] in species;
    var k := FirstIndex(species, d[i]);
    assert animals[k].species == SpeciesFilters(animals)[i].value;
  }

  /** Every loaded record's species is offered. */
  lemma SpeciesFiltersComplete(animals: seq<Animal>, k: nat)
    requires k < |animals|
    ensures exists i :: 0 <= i < |SpeciesFilters(animals)| && SpeciesFilters(animals)[i].value == animals[k].species
  {
    var species := SpeciesOf(animals);
    var d := Distinct(species);
    assert species[k] in d;
    var i :| 0 <= i < |d| && d[i] == species[k];
    assert SpeciesFilters(animals)[i].value == animals[k].species;
  }

  /** Selecting any offered option leaves at least one row. */
  lemma NoFilterOptionIsEmpty(animals: seq<Animal>, o: FilterOption)
    requires o in SpeciesFilters(animals)
    ensures FilterBy(animals, o.value) != []
  {
    var opts := SpeciesFilters(animals);
    var i :| 0 <= i < |opts| && opts[i] == o;
    SpeciesFiltersSound(animals, i);
    var k :| 0 <= k < |animals| && animals[k].species == opts[i].value;
    assert animals[k] in multiset(animals);
    assert multiset(FilterBy(animals, o.value))[animals[k]] > 0;
  }
}
