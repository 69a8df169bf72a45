/** The five-year age-group labels: codes 1..17 name the ranges "0-4" to
    "80-84", code 18 is the open bucket "85+".  Labelling the age table looks
    each code up in that map; a code outside it gets no label. */
module AgeLabels {
  import opened Tally

  datatype Option<T> = None | Some(value: T)

  predicate IsDigit(c: char)
  {
    '0' <= c <= '9'
  }

  predicate AllDigits(s: string)
  {
    forall i :: 0 <= i < |s| ==> IsDigit(s[i])
  }

  function DigitChar(d: nat): (c: char)
    requires d < 10
    ensures IsDigit(c)
  {
    ('0' as int + d) as char
  }

  function DigitValue(c: char): nat
  {
    if IsDigit(c) then c as int - '0' as int else 0
  }

  /** The decimal rendering of a natural number, without leading zeros. */
  function NatToString(n: nat): (s: string)
    ensures |s| >= 1 && AllDigits(s)
    ensures s[0] == '0' <==> n == 0
    ensures n < 10 <==> |s| == 1
  {
    if n < 10 then [DigitChar(n)] else NatToString(n / 10) + [DigitChar(n % 10)]
  }

  /** The value of a string of decimal digits. */
  function ParseNat(s: string): nat
  {
    if s == [] then 0 else 10 * ParseNat(s[..|s| - 1]) + DigitValue(s[|s| - 1])
  }

  /** A non-empty digit string with no leading zero (other than "0" itself). */
  predicate Canonical(s: string)
  {
    |s| >= 1 && AllDigits(s) && (|s| == 1 || s[0] != '0')
  }

  /** The longest prefix of `s` made of digits. */
  function LeadingDigits(s: string): (r: string)
    ensures AllDigits(r) && |r| <= |s| && r == s[..|r|]
  {
    if s == [] || !IsDigit(s[0]) then [] else [s[0]] + LeadingDigits(s[1..])
  }

  /** Reading back a rendered number gives the number. */
  lemma {:induction false} ParseNatToString(n: nat)
    ensures ParseNat(NatToString(n)) == n
  {
    var s := NatToString(n);
    if n >= 10 {
      ParseNatToString(n / 10);
      assert s[..|s| - 1] == NatToString(n / 10);
    }
  }

  /** A digit string that does not start with '0' has a positive value. */
  lemma {:induction false} ParseNatPositive(s: string)
    requires s != [] && AllDigits(s) && s[0] != '0'
    ensures ParseNat(s) >= 1
  {
    if |s| > 1 {
      ParseNatPositive(s[..|s| - 1]);
    }
  }

  /** Rendering is the only canonical digit string for its number: a
      canonical string is the rendering of its own value. */
  lemma {:induction false} CanonicalIsRendering(s: string)
    requires Canonical(s)
    ensures NatToString(ParseNat(s)) == s
  {
    var init := s[..|s| - 1];
    var d := DigitValue(s[|s| - 1]);
    assert DigitChar(d) == s[|s| - 1];
    if |s| == 1 {
      assert init == [];
    } else {
      ParseNatPositive(init);
      CanonicalIsRendering(init);
      var n := ParseNat(s);
      assert n / 10 == ParseNat(init) && n % 10 == d;
      assert s == init + [s[|s| - 1]];
    }
  }

  lemma {:induction false} LeadingDigitsOf(d: string, rest: string)
    requires AllDigits(d) && (rest == [] || !IsDigit(rest[0]))
    ensures LeadingDigits(d + rest) == d
  {
    if d != [] {
      assert (d + rest)[1..] == d[1..] + rest;
      LeadingDigitsOf(d[1..], rest);
    } else {
      assert d + rest == rest;
    }
  }

  /** The label of code `i` in 1..17: its five-year range. */
  function RangeLabel(i: int): string
    requires 1 <= i <= 17
  {
    NatToString((i - 1) * 5) + "-" + NatToString((i - 1) * 5 + 4)
  }

  /** The code-to-label map, defined on exactly the codes 1..18. */
  function AgeLabelMap(): (m: map<int, string>)
    ensures forall i :: i in m <==> 1 <= i <= 18
    ensures m[18] == "85+"
  {
    (map i | 1 <= i <= 17 :: RangeLabel(i))[18 := "85+"]
  }

  /** The number a label starts with is the lower end of its bucket, written
      without leading zeros. */
  lemma AgeLabelLowerBound(i: int)
    requires 1 <= i <= 18
    ensures Canonical(LeadingDigits(AgeLabelMap()[i]))
    ensures ParseNat(LeadingDigits(AgeLabelMap()[i])) == (i - 1) * 5
  {
    var m := AgeLabelMap();
    if i == 18 {
      assert m[18] == "85" + "+";
      LeadingDigitsOf("85", "+");
      assert ParseNat("85") == 85 by {
        assert "85"[..1] == "8";
        assert "8"[..0] == [];
      }
    } else {
      var lo := NatToString((i - 1) * 5);
      assert m[i] == lo + ("-" + NatToString((i - 1) * 5 + 4));
      LeadingDigitsOf(lo, "-" + NatToString((i - 1) * 5 + 4));
      ParseNatToString((i - 1) * 5);
    }
  }

  /** For codes 1..17 the lower end is followed by a dash and the upper end,
      four years later, written without leading zeros. */
  lemma AgeLabelUpperBound(i: int)
    requires 1 <= i <= 17
    ensures var l := AgeLabelMap()[i]; var lo := LeadingDigits(l);
      |lo| < |l| && l[|lo|] == '-' && Canonical(l[|lo| + 1..]) &&
      ParseNat(l[|lo| + 1..]) == (i - 1) * 5 + 4
  {
    var a := (i - 1) * 5;
    var hi := NatToString(a + 4);
    assert AgeLabelMap()[i] == NatToString(a) + "-" + hi;
    SplitRange(NatToString(a), hi);
    assert Canonical(hi);
    ParseNatToString(a + 4);
  }

  /** A digit string, a dash and a rest: the leading digits are the first
      part and what follows the dash is the rest. */
  lemma SplitRange(lo: string, hi: string)
    requires AllDigits(lo)
    ensures var l := lo + "-" + hi;
      LeadingDigits(l) == lo && |lo| < |l| && l[|lo|] == '-' && l[|lo| + 1..] == hi
  {
    LeadingDigitsOf(lo, "-" + hi);
    assert lo + "-" + hi == lo + ("-" + hi);
  }

  /** Distinct codes have distinct labels. */
  lemma AgeLabelsDistinct(i: int, j: int)
    requires 1 <= i <= 18 && 1 <= j <= 18 && i != j
    ensures AgeLabelMap()[i] != AgeLabelMap()[j]
  {
    AgeLabelLowerBound(i);
    AgeLabelLowerBound(j);
  }

  /** The first, the last closed and the open bucket. */
  lemma AgeLabelExamples()
    ensures AgeLabelMap()[1] == "0-4"
    ensures AgeLabelMap()[17] == "80-84"
    ensures AgeLabelMap()[18] == "85+"
  {
  }

  /** A map lookup that yields no value for a missing key. */
  function Get<K, V>(m: map<K, V>, k: K): Option<V>
  {
    if k in m then Some(m[k]) else None
  }

  /** One row of the age histogram: the code, its count and its label. */
  datatype AgeRow = AgeRow(code: int, deaths: nat, ageRange: Option<string>)

  /** Add the label column to the age table, row by row. */
  function LabelAges(t: Table<int>): (r: seq<AgeRow>)
    ensures |r| == |t|
    ensures forall i :: 0 <= i < |t| ==>
      r[i].code == t[i].0 && r[i].deaths == t[i].1 && r[i].ageRange == Get(AgeLabelMap(), t[i].0)
  {
    if t == [] then [] else [AgeRow(t[0].0, t[0].1, Get(AgeLabelMap(), t[0].0))] + LabelAges(t[1..])
  }
}
