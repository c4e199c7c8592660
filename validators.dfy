/**
 * The identifier records of the decoder, each a string checked by a regular
 * expression in its constructor: `CallSign`, `IcaoAddress`,
 * `AircraftRegistration`, `AircraftDescription` and
 * `AircraftTypeDesignator`. Each check is written as a predicate on
 * characters, and each is proved equal to the source's regular expression,
 * transcribed into the small pattern language below and read with
 * `matches()` semantics (the whole string must match).
 */
module Validators {

  // ---------------------------------------------------------------------------
  // Regular expressions made of repeated character classes
  // ---------------------------------------------------------------------------

  /** The characters from `lo` to `hi`. */
  datatype Span = Span(lo: char, hi: char)

  /** A character class `[..]`: its ranges and its single characters. */
  datatype Class = Class(spans: seq<Span>, singles: string)

  datatype Bound = AtMost(n: nat) | Unbounded

  /** A character class repeated between `min` and `max` times, as `[..]{min,max}`. */
  datatype Item = Item(cls: Class, min: nat, max: Bound)

  predicate InClass(cls: Class, c: char)
  {
    (exists i :: 0 <= i < |cls.spans| && cls.spans[i].lo <= c <= cls.spans[i].hi) || c in cls.singles
  }

  predicate AllInClass(cls: Class, s: string)
  {
    forall i :: 0 <= i < |s| ==> InClass(cls, s[i])
  }

  predicate Fits(it: Item, k: nat)
  {
    it.min <= k && (it.max.AtMost? ==> k <= it.max.n)
  }

  /** `s` splits into consecutive pieces, one per item, each matching its item. */
  ghost predicate Matches(p: seq<Item>, s: string)
    decreases |p|
  {
    if p == [] then s == []
    else exists k :: 0 <= k <= |s| && Fits(p[0], k) && AllInClass(p[0].cls, s[..k]) && Matches(p[1..], s[k..])
  }

  /** A pattern of one item matches exactly the strings of a fitting length over its class. */
  lemma MatchesOne(it: Item, s: string)
    ensures Matches([it], s) <==> Fits(it, |s|) && AllInClass(it.cls, s)
  {
    assert [it][1..] == [];
    if Fits(it, |s|) && AllInClass(it.cls, s) {
      assert s[..|s|] == s && s[|s|..] == [];
    }
  }

  /**
   * A pattern whose items all stand for exactly one character matches the
   * strings with one character per item, each in its item's class.
   */
  lemma {:induction false} MatchesSingles(p: seq<Item>, s: string)
    requires forall j :: 0 <= j < |p| ==> p[j].min == 1 && p[j].max == AtMost(1)
    ensures Matches(p, s) <==> |s| == |p| && forall j :: 0 <= j < |p| ==> InClass(p[j].cls, s[j])
    decreases |p|
  {
    if p != [] && s != [] {
      MatchesSingles(p[1..], s[1..]);
      if Matches(p, s) {
        var k :| 0 <= k <= |s| && Fits(p[0], k) && AllInClass(p[0].cls, s[..k]) && Matches(p[1..], s[k..]);
        assert k == 1;
        assert s[..k][0] == s[0];
        forall j | 0 < j < |p|
          ensures InClass(p[j].cls, s[j])
        {
          assert p[1..][j - 1] == p[j] && s[1..][j - 1] == s[j];
        }
      }
      if |s| == |p| && forall j :: 0 <= j < |p| ==> InClass(p[j].cls, s[j]) {
        forall j | 0 <= j < |p| - 1
          ensures InClass(p[1..][j].cls, s[1..][j])
        {
          assert p[1..][j] == p[j + 1] && s[1..][j] == s[j + 1];
        }
        assert AllInClass(p[0].cls, s[..1]) by {
          assert s[..1][0] == s[0];
        }
      }
    }
  }

  // ---------------------------------------------------------------------------
  // The character classes of the patterns
  // ---------------------------------------------------------------------------

  predicate IsUpperOrDigit(c: char)
  {
    'A' <= c <= 'Z' || '0' <= c <= '9'
  }

  const UPPER_OR_DIGIT: Class := Class([Span('A', 'Z'), Span('0', '9')], [])

  lemma UpperOrDigitClass(s: string)
    ensures AllInClass(UPPER_OR_DIGIT, s) <==> forall i :: 0 <= i < |s| ==> IsUpperOrDigit(s[i])
  {
    if forall i :: 0 <= i < |s| ==> IsUpperOrDigit(s[i]) {
      forall i | 0 <= i < |s|
        ensures InClass(UPPER_OR_DIGIT, s[i])
      {
        if 'A' <= s[i] <= 'Z' {
          assert UPPER_OR_DIGIT.spans[0].lo <= s[i] <= UPPER_OR_DIGIT.spans[0].hi;
        } else {
          assert UPPER_OR_DIGIT.spans[1].lo <= s[i] <= UPPER_OR_DIGIT.spans[1].hi;
        }
      }
    }
  }

  // ---------------------------------------------------------------------------
  // CallSign: [A-Z0-9]{0,8}, or the empty string
  // ---------------------------------------------------------------------------

  const CALL_SIGN: seq<Item> := [Item(UPPER_OR_DIGIT, 0, AtMost(8))]

  /** The validity condition of the `CallSign` constructor. */
  predicate IsCallSign(s: string)
  {
    (|s| <= 8 && forall i :: 0 <= i < |s| ==> IsUpperOrDigit(s[i])) || s == []
  }

  type CallSign = s: string | IsCallSign(s) witness []

  lemma CallSignRegex(s: string)
    ensures IsCallSign(s) <==> Matches(CALL_SIGN, s)
  {
    MatchesOne(CALL_SIGN[0], s);
    UpperOrDigitClass(s);
  }

  /** Up to eight upper-case letters or digits: no space, no lower case, no ninth character. */
  lemma CallSignExamples()
    ensures IsCallSign("KLM1023") && IsCallSign("") && IsCallSign("ABCDEFGH")
    ensures !IsCallSign("klm1023") && !IsCallSign("KLM 1023") && !IsCallSign("ABCDEFGHI")
  {
    assert !IsUpperOrDigit("klm1023"[0]);
    assert !IsUpperOrDigit("KLM 1023"[3]);
  }

  // ---------------------------------------------------------------------------
  // IcaoAddress: [0-9A-F¨]{6}, and not empty
  // ---------------------------------------------------------------------------

  /** The class of the pattern, which lists the diaeresis `¨` (U+00A8) next to the hexadecimal digits. */
  predicate IsIcaoChar(c: char)
  {
    '0' <= c <= '9' || 'A' <= c <= 'F' || c == '¨'
  }

  const ICAO_ADDRESS: seq<Item> := [Item(Class([Span('0', '9'), Span('A', 'F')], "¨"), 6, AtMost(6))]

  /** The validity conditions of the `IcaoAddress` constructor. */
  predicate IsIcaoAddress(s: string)
  {
    |s| == 6 && (forall i :: 0 <= i < |s| ==> IsIcaoChar(s[i])) && s != []
  }

  type IcaoAddress = s: string | IsIcaoAddress(s) witness "000000"

  lemma IcaoAddressRegex(s: string)
    ensures IsIcaoAddress(s) <==> Matches(ICAO_ADDRESS, s)
  {
    var cls := ICAO_ADDRESS[0].cls;
    MatchesOne(ICAO_ADDRESS[0], s);
    if forall i :: 0 <= i < |s| ==> IsIcaoChar(s[i]) {
      forall i | 0 <= i < |s|
        ensures InClass(cls, s[i])
      {
        if '0' <= s[i] <= '9' {
          assert cls.spans[0].lo <= s[i] <= cls.spans[0].hi;
        } else if 'A' <= s[i] <= 'F' {
          assert cls.spans[1].lo <= s[i] <= cls.spans[1].hi;
        }
      }
    }
  }

  /** Six diaereses make an address; lower-case digits and the empty string do not. */
  lemma IcaoAddressExamples()
    ensures IsIcaoAddress("¨¨¨¨¨¨")
    ensures IsIcaoAddress("4B1814") && !IsIcaoAddress("4b1814") && !IsIcaoAddress("")
  {
    assert !IsIcaoChar("4b1814"[1]);
  }

  // ---------------------------------------------------------------------------
  // AircraftRegistration: [A-Z0-9 .?/_+-]+, and not empty
  // ---------------------------------------------------------------------------

  predicate IsRegistrationChar(c: char)
  {
    IsUpperOrDigit(c) || c in " .?/_+-"
  }

  const REGISTRATION: seq<Item> :=
    [Item(Class([Span('A', 'Z'), Span('0', '9')], " .?/_+-"), 1, Unbounded)]

  /** The validity conditions of the `AircraftRegistration` constructor. */
  predicate IsRegistration(s: string)
  {
    |s| >= 1 && (forall i :: 0 <= i < |s| ==> IsRegistrationChar(s[i])) && s != []
  }

  type AircraftRegistration = s: string | IsRegistration(s) witness "A"

  lemma RegistrationRegex(s: string)
    ensures IsRegistration(s) <==> Matches(REGISTRATION, s)
  {
    var cls := REGISTRATION[0].cls;
    MatchesOne(REGISTRATION[0], s);
    forall i | 0 <= i < |s|
      ensures InClass(cls, s[i]) <==> IsRegistrationChar(s[i])
    {
      var c := s[i];
      if 'A' <= c <= 'Z' {
        assert cls.spans[0].lo <= c <= cls.spans[0].hi;
      } else if '0' <= c <= '9' {
        assert cls.spans[1].lo <= c <= cls.spans[1].hi;
      }
    }
  }

  /** Registrations may hold spaces and `.?/_+-`, but no lower case, and may not be empty. */
  lemma RegistrationExamples()
    ensures IsRegistration("HB-JDC") && IsRegistration("N 12.3/A")
    ensures !IsRegistration("hb-jdc") && !IsRegistration("")
  {
    assert !IsRegistrationChar("hb-jdc"[0]);
  }

  // ---------------------------------------------------------------------------
  // AircraftDescription: [ABDGHLPRSTV-][0123468][EJPT-], or the empty string
  // ---------------------------------------------------------------------------

  const DESCRIPTION: seq<Item> :=
    [Item(Class([], "ABDGHLPRSTV-"), 1, AtMost(1)), Item(Class([], "0123468"), 1, AtMost(1)),
     Item(Class([], "EJPT-"), 1, AtMost(1))]

  /** The validity condition of the `AircraftDescription` constructor. */
  predicate IsDescription(s: string)
  {
    (|s| == 3 && s[0] in "ABDGHLPRSTV-" && s[1] in "0123468" && s[2] in "EJPT-") || s == []
  }

  type AircraftDescription = s: string | IsDescription(s) witness []

  lemma DescriptionRegex(s: string)
    ensures IsDescription(s) <==> s == [] || Matches(DESCRIPTION, s)
  {
    MatchesSingles(DESCRIPTION, s);
  }

  lemma DescriptionExamples()
    ensures IsDescription("L2J") && !IsDescription("L5J") && IsDescription("")
  {
    assert "L2J"[0] == 'L' && "L2J"[1] == '2' && "L2J"[2] == 'J';
    assert "L5J"[1] == '5';
  }

  // ---------------------------------------------------------------------------
  // AircraftTypeDesignator: [A-Z0-9]{2,4}, or the empty string
  // ---------------------------------------------------------------------------

  const TYPE_DESIGNATOR: seq<Item> := [Item(UPPER_OR_DIGIT, 2, AtMost(4))]

  /** The validity condition of the `AircraftTypeDesignator` constructor. */
  predicate IsTypeDesignator(s: string)
  {
    (2 <= |s| <= 4 && forall i :: 0 <= i < |s| ==> IsUpperOrDigit(s[i])) || s == []
  }

  type AircraftTypeDesignator = s: string | IsTypeDesignator(s) witness []

  /** Two to four upper-case letters or digits, or nothing. */
  lemma TypeDesignatorExamples()
    ensures IsTypeDesignator("A20N") && IsTypeDesignator("B7") && IsTypeDesignator("")
    ensures !IsTypeDesignator("A") && !IsTypeDesignator("A20NX") && !IsTypeDesignator("a20n")
  {
    assert !IsUpperOrDigit("a20n"[0]);
  }

  lemma TypeDesignatorRegex(s: string)
    ensures IsTypeDesignator(s) <==> s == [] || Matches(TYPE_DESIGNATOR, s)
  {
    MatchesOne(TYPE_DESIGNATOR[0], s);
    UpperOrDigitClass(s);
  }
}
