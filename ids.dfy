/**
  Record identifiers: a counter value n, minted by INCR, rendered as
  `${year}-${String(n).padStart(width, '0')}` (redis-backend/server.js, resident,
  official, announcement, certificate and CSV creates).
*/
module Ids {
  import opened Text

  /** Digits of the sequence part for each kind of record. */
  const ResidentWidth: nat := 5
  const OfficialWidth: nat := 3
  const AnnouncementWidth: nat := 5
  const CertificateWidth: nat := 5

  /** The sequence part: the counter value, zero-padded on the left. */
  function SequencePart(n: nat, width: nat): string {
    PadStart(Dec(n), width, '0')
  }

  function FormatId(year: nat, n: nat, width: nat): string {
    Dec(year) + "-" + SequencePart(n, width)
  }

  /** Below 10^width the sequence part has exactly width digits; from there on padStart
      leaves the numeral as it is and never cuts it; either way it reads back as n. */
  lemma SequencePartShape(n: nat, width: nat)
    requires width >= 1
    ensures AllDigits(SequencePart(n, width)) && Value(SequencePart(n, width)) == n
    ensures n < Pow10(width) ==> |SequencePart(n, width)| == width
    ensures n >= Pow10(width) ==> SequencePart(n, width) == Dec(n) && |Dec(n)| > width
  {
    ValueOfPadded(n, width);
    DecLength(n, width);
  }

  /** An identifier determines its year and its counter value: distinct counter values
      (or years) never give the same identifier. */
  lemma FormatIdInjective(y1: nat, n1: nat, y2: nat, n2: nat, width: nat)
    ensures FormatId(y1, n1, width) == FormatId(y2, n2, width) <==> y1 == y2 && n1 == n2
  {
    if FormatId(y1, n1, width) == FormatId(y2, n2, width) {
      var s := FormatId(y1, n1, width);
      var d1, d2 := Dec(y1), Dec(y2);
      assert s[|d1|] == '-' && s[|d2|] == '-';
      assert |d1| < |d2| ==> s[|d1|] == d2[|d1|] && IsDigit(d2[|d1|]);
      assert |d2| < |d1| ==> s[|d2|] == d1[|d2|] && IsDigit(d1[|d2|]);
      assert |d1| == |d2|;
      assert d1 == s[..|d1|] == d2;
      DecInjective(y1, y2);
      assert SequencePart(n1, width) == s[|d1| + 1..] == SequencePart(n2, width);
      ValueOfPadded(n1, width);
      ValueOfPadded(n2, width);
    }
  }

  /** While counter values stay below 10^width, identifiers of one year sort as their
      counter values do: in code-point order (`a.id < b.id`), the first is smaller iff it
      was minted earlier. */
  lemma FormatIdOrder(year: nat, a: nat, b: nat, width: nat)
    requires width >= 1 && a < Pow10(width) && b < Pow10(width)
    ensures LexLess(FormatId(year, a, width), FormatId(year, b, width)) <==> a < b
  {
    SequencePartShape(a, width);
    SequencePartShape(b, width);
    LexLessCommonPrefix(Dec(year) + "-", SequencePart(a, width), SequencePart(b, width));
    LexLessDigits(SequencePart(a, width), SequencePart(b, width));
  }

  /** Counter values that only ever increase never mint the same identifier twice. */
  lemma IncreasingCountersMintDistinctIds(year: nat, ns: seq<nat>, width: nat)
    requires forall i, j :: 0 <= i < j < |ns| ==> ns[i] < ns[j]
    ensures forall i, j :: 0 <= i < j < |ns| ==> FormatId(year, ns[i], width) != FormatId(year, ns[j], width)
  {
    forall i, j | 0 <= i < j < |ns|
      ensures FormatId(year, ns[i], width) != FormatId(year, ns[j], width)
    {
      FormatIdInjective(year, ns[i], year, ns[j], width);
    }
  }

  /** An identifier is digits and one hyphen, so it never holds the ':' that separates the
      parts of a store key. */
  lemma FormatIdHasNoColon(year: nat, n: nat, width: nat)
    requires width >= 1
    ensures ':' !in FormatId(year, n, width)
  {
    SequencePartShape(n, width);
    DigitsAroundHyphen(Dec(year), SequencePart(n, width));
  }

  lemma DigitsAroundHyphen(a: string, b: string)
    requires AllDigits(a) && AllDigits(b)
    ensures ':' !in a + "-" + b
  {
    var s := a + "-" + b;
    forall i | 0 <= i < |s| ensures s[i] != ':' {
      if i < |a| {
        assert s[i] == a[i];
      } else if i > |a| {
        assert s[i] == b[i - |a| - 1];
      }
    }
  }

  /** The first official of 2025 is 2025-001; the first resident is 2025-00001. */
  lemma FirstIdentifiers()
    ensures FormatId(2025, 1, OfficialWidth) == "2025-001"
    ensures FormatId(2025, 2, OfficialWidth) == "2025-002"
    ensures FormatId(2025, 1, ResidentWidth) == "2025-00001"
  {
    assert Dec(2025) == "2025" by {
      assert Dec(2) == "2";
      assert Dec(20) == Dec(2) + "0";
      assert Dec(202) == Dec(20) + "2";
    }
    assert Dec(1) == "1" && Dec(2) == "2";
    assert Repeat('0', 2) == "00" && Repeat('0', 4) == "0000";
  }
}
