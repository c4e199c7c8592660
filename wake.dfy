/** `WakeTurbulenceCategory`: the wake category of an aircraft, from the letter of the aircraft database. */
module WakeTurbulence {

  datatype WakeTurbulenceCategory = LIGHT | MEDIUM | HEAVY | UNKNOWN

  /** `of`: `"L"`, `"M"` and `"H"` name the three known categories; every other string gives `UNKNOWN`. */
  function Of(s: string): (c: WakeTurbulenceCategory)
    ensures c == LIGHT <==> s == "L"
    ensures c == MEDIUM <==> s == "M"
    ensures c == HEAVY <==> s == "H"
  {
    if s == "L" then LIGHT
    else if s == "M" then MEDIUM
    else if s == "H" then HEAVY
    else UNKNOWN
  }

  /** The letter of a known category. */
  function Letter(c: WakeTurbulenceCategory): string
    requires c != UNKNOWN
  {
    match c
    case LIGHT => "L"
    case MEDIUM => "M"
    case HEAVY => "H"
  }

  /** `of` reads back the letter of every known category, and a known category only from its letter. */
  lemma OfLetter(c: WakeTurbulenceCategory, s: string)
    ensures c != UNKNOWN ==> Of(Letter(c)) == c
    ensures Of(s) != UNKNOWN ==> Letter(Of(s)) == s
  {
  }

  lemma OfExamples()
    ensures Of("") == UNKNOWN && Of("l") == UNKNOWN && Of("LM") == UNKNOWN
  {
  }
}
