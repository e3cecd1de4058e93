/** `getPlaceSuffix`: a finishing place written as an English ordinal. */
module Ordinal {
  import opened Wrappers
  import opened JsNum

  /** `suffixes[k]` on `['th', 'st', 'nd', 'rd']`: `undefined` outside 0..3. */
  function SuffixAt(k: int): Option<string> {
    if 0 <= k < 4 then Some(["th", "st", "nd", "rd"][k]) else None
  }

  /** `suffixes[(v - 20) % 10] || suffixes[v] || suffixes[0]`, the remainder JavaScript's
      truncated one. */
  function TableSuffix(v: int): string {
    var first := SuffixAt(JsRem(v - 20, 10));
    if first.Some? then first.value
    else
      var second := SuffixAt(v);
      if second.Some? then second.value else "th"
  }

  /** The suffix `getPlaceSuffix` appends: the table lookup on `v = place % 100`. */
  function PlaceSuffix(place: int): string {
    TableSuffix(JsRem(place, 100))
  }

  /** `getPlaceSuffix(place)`: the place's decimal digits followed by the suffix. */
  function PlaceString(place: int): string {
    IntString(place) + PlaceSuffix(place)
  }

  /** The English rule, independent of the source's table trick: 11th, 12th and 13th of
      every hundred; otherwise 1st, 2nd, 3rd by the last digit; otherwise th. */
  function EnglishSuffix(n: nat): string {
    if 11 <= n % 100 <= 13 then "th"
    else if n % 10 == 1 then "st"
    else if n % 10 == 2 then "nd"
    else if n % 10 == 3 then "rd"
    else "th"
  }

  /** For every positive place the table lookup agrees with the English rule. The first
      lookup can only succeed from 20 upwards within a hundred; below 20 the truncated
      remainder is negative or zero, and the second lookup covers 1, 2 and 3. */
  lemma PlaceSuffixIsEnglish(place: nat)
    ensures PlaceSuffix(place) == EnglishSuffix(place)
  {
    var v := place % 100;
    assert JsRem(place, 100) == v;
    LastTwoDigits(place);
    TableIsEnglish(v);
  }

  /** The last digit and the last two digits of a place, as the English rule reads them. */
  lemma LastTwoDigits(place: nat)
    ensures (place % 100) % 10 == place % 10
  {
    var q, v := place / 100, place % 100;
    var h, w := v / 10, v % 10;
    assert place == 100 * q + v;
    assert v == 10 * h + w;
    assert place == (10 * q + h) * 10 + w;
    DivModUnique(place, 10, 10 * q + h, w);
  }

  /** Within one hundred, the table lookup agrees with the English rule. */
  lemma TableIsEnglish(v: int)
    requires 0 <= v < 100
    ensures TableSuffix(v) == EnglishSuffix(v)
  {
    if v >= 20 {
      TableAboveTwenty(v);
    } else {
      TableBelowTwenty(v);
    }
  }

  /** From 20 on, the first lookup indexes by the last digit and settles every case. */
  lemma TableAboveTwenty(v: int)
    requires 20 <= v < 100
    ensures TableSuffix(v) == EnglishSuffix(v)
  {
    var d := v % 10;
    assert v % 100 == v;
    assert JsRem(v - 20, 10) == d;
    assert EnglishSuffix(v) == (if d == 1 then "st" else if d == 2 then "nd" else if d == 3 then "rd" else "th");
  }

  /** Below 20, the first lookup only succeeds at 0 and 10 (index 0, "th"); otherwise the
      second lookup gives 1st, 2nd and 3rd, and the default gives th. */
  lemma TableBelowTwenty(v: int)
    requires 0 <= v < 20
    ensures TableSuffix(v) == EnglishSuffix(v)
  {
    assert v % 100 == v;
    assert JsRem(v - 20, 10) == -((20 - v) % 10);
    if v == 0 || v == 10 {
      assert JsRem(v - 20, 10) == 0;
    } else {
      assert JsRem(v - 20, 10) < 0;
    }
  }

  /** Zero and negative places always get "th": the first lookup reads `suffixes[0]` or an
      index below zero, and in the latter case the place, the second index, is negative too. */
  lemma NonPositivePlaceSuffix(place: int)
    requires place <= 0
    ensures PlaceSuffix(place) == "th"
  {
  }

  /** The suffixes of the first few places and of some past a hundred. */
  lemma PlaceSuffixExamples()
    ensures PlaceSuffix(1) == "st" && PlaceSuffix(2) == "nd" && PlaceSuffix(3) == "rd" && PlaceSuffix(4) == "th"
    ensures PlaceSuffix(11) == "th" && PlaceSuffix(12) == "th" && PlaceSuffix(13) == "th"
    ensures PlaceSuffix(21) == "st" && PlaceSuffix(22) == "nd"
    ensures PlaceSuffix(101) == "st" && PlaceSuffix(111) == "th"
  {
    PlaceSuffixIsEnglish(1);
    PlaceSuffixIsEnglish(2);
    PlaceSuffixIsEnglish(3);
    PlaceSuffixIsEnglish(4);
    PlaceSuffixIsEnglish(11);
    PlaceSuffixIsEnglish(12);
    PlaceSuffixIsEnglish(13);
    PlaceSuffixIsEnglish(21);
    PlaceSuffixIsEnglish(22);
    PlaceSuffixIsEnglish(101);
    PlaceSuffixIsEnglish(111);
  }

  /** Whole ordinals as the results table shows them. */
  lemma PlaceStringExamples()
    ensures PlaceString(1) == "1st" && PlaceString(11) == "11th" && PlaceString(22) == "22nd"
    ensures PlaceString(101) == "101st" && PlaceString(111) == "111th"
  {
    PlaceSuffixExamples();
    DecimalExamples();
  }

  /** The decimal text of the example places. */
  lemma DecimalExamples()
    ensures IntString(1) == "1" && IntString(11) == "11" && IntString(22) == "22"
    ensures IntString(101) == "101" && IntString(111) == "111"
  {
    assert NatString(1) == "1";
    assert NatString(2) == "2";
    assert NatString(11) == NatString(1) + "1";
    assert NatString(22) == NatString(2) + "2";
    assert NatString(10) == NatString(1) + "0";
    assert NatString(101) == NatString(10) + "1";
    assert NatString(111) == NatString(11) + "1";
  }
}
