/** The region table of the CPF package: the digit each state code places
    in the ninth position, the syntactic check on state codes, the lookup,
    and the placeholder generator. */
module Generate {
  import opened Format
  import opened Validate

  /** The digit assigned to each of the 27 state codes. */
  const RegionDigits: map<string, int> := map[
    "RS" := 0,
    "DF" := 1, "GO" := 1, "MS" := 1, "MT" := 1, "TO" := 1,
    "AC" := 2, "AM" := 2, "AP" := 2, "PA" := 2, "RO" := 2, "RR" := 2,
    "CE" := 3, "MA" := 3, "PI" := 3,
    "AL" := 4, "PB" := 4, "PE" := 4, "RN" := 4,
    "BA" := 5, "SE" := 5,
    "MG" := 6,
    "ES" := 7, "RJ" := 7,
    "SP" := 8,
    "PR" := 9, "SC" := 9
  ]

  predicate IsUpperLetter(c: char) {
    'A' <= c <= 'Z'
  }

  /** A state code as the check accepts it: two characters, each in 'A'..'Z'. */
  predicate WellFormedState(state: string) {
    |state| == 2 && forall i :: 0 <= i < |state| ==> IsUpperLetter(state[i])
  }

  /** strings.ToUpper restricted to ASCII: 'a'..'z' become 'A'..'Z'. */
  function ToUpper(s: string): (r: string)
    ensures |r| == |s|
    ensures forall i :: 0 <= i < |r| ==> !('a' <= r[i] <= 'z')
    ensures forall i :: 0 <= i < |s| && !('a' <= s[i] <= 'z') ==> r[i] == s[i]
  {
    seq(|s|, i requires 0 <= i < |s| => if 'a' <= s[i] <= 'z' then (s[i] as int - 32) as char else s[i])
  }

  /** Returns the code when it is two characters in 'A'..'Z', and "" otherwise.
      The range test runs before the upper-casing, so lower-case codes are refused. */
  function ValidateStateInput(state: string): (r: string)
    ensures r != "" <==> WellFormedState(state)
    ensures r != "" ==> r == state
  {
    if |state| != 2 then ""
    else if exists i :: 0 <= i < |state| && (state[i] < 'A' || state[i] > 'Z') then ""
    else ToUpper(state)
  }

  /** The region digit of a state code, or -1 for a malformed or unknown code. */
  function RegionDigitByState(state: string): (d: int)
    ensures d == -1 || 0 <= d <= 9
  {
    var s := ValidateStateInput(state);
    if s == "" then -1
    else if s in RegionDigits then RegionDigits[s]
    else -1
  }

  /** Placeholder for generation: the argument is ignored. */
  function GeneratePlaceholder(state: string): (r: string)
    ensures |r| == 14 && !ValidString(r)
  {
    WrongVerifierExample();
    "123.456.789-00"
  }

  // ---------------------------------------------------------------------
  // Lemmas

  /** Every key of the table is a well-formed code and every value a digit. */
  lemma RegionTableWellFormed()
    ensures forall k :: k in RegionDigits ==> WellFormedState(k) && 0 <= RegionDigits[k] <= 9
  {
  }

  /** The lookup is exactly table membership: the syntactic check refuses
      nothing the table holds. */
  lemma RegionDigitIsLookup(state: string)
    ensures RegionDigitByState(state) == if state in RegionDigits then RegionDigits[state] else -1
  {
    RegionTableWellFormed();
  }

  /** The upper-casing is the identity on every code that reaches it. */
  lemma ToUpperIdentity(state: string)
    requires WellFormedState(state)
    ensures ToUpper(state) == state
  {
  }

  /** A code holding a lower-case letter is refused. */
  lemma LowercaseRejected(state: string, i: nat)
    requires i < |state| && 'a' <= state[i] <= 'z'
    ensures ValidateStateInput(state) == "" && RegionDigitByState(state) == -1
  {
  }

  /** The table is many-to-one and its digits are exactly 0..9. */
  lemma RegionTableCoversDigits()
    ensures RegionDigits.Values == {0, 1, 2, 3, 4, 5, 6, 7, 8, 9}
    ensures RegionDigits["ES"] == RegionDigits["RJ"] == 7
    ensures RegionDigits["PR"] == RegionDigits["SC"] == 9
  {
    var all := {0, 1, 2, 3, 4, 5, 6, 7, 8, 9};
    assert forall v :: v in RegionDigits.Values ==> 0 <= v <= 9;
    assert RegionDigits.Values <= all;
    assert RegionDigits["RS"] == 0 && RegionDigits["DF"] == 1 && RegionDigits["AC"] == 2;
    assert RegionDigits["CE"] == 3 && RegionDigits["AL"] == 4 && RegionDigits["BA"] == 5;
    assert RegionDigits["MG"] == 6 && RegionDigits["ES"] == 7 && RegionDigits["SP"] == 8;
    assert RegionDigits["PR"] == 9;
    assert all <= RegionDigits.Values;
  }

  /** Lookups for known codes. */
  lemma RegionDigitExamples()
    ensures RegionDigitByState("ES") == 7 && RegionDigitByState("RJ") == 7
    ensures RegionDigitByState("SP") == 8 && RegionDigitByState("RS") == 0
    ensures RegionDigitByState("PR") == 9 && RegionDigitByState("SC") == 9
  {
  }

  /** Lookups for unknown, malformed and lower-case codes. */
  lemma UnknownRegionExamples()
    ensures RegionDigitByState("XX") == -1 && RegionDigitByState("") == -1
    ensures RegionDigitByState("SP123") == -1 && RegionDigitByState("!@") == -1
    ensures RegionDigitByState("sp") == -1
  {
    LowercaseRejected("sp", 0);
  }

  /** The generator the package describes, over caller-supplied base digits:
      eight digits, the region digit of a known state, then the two verifiers.
      The region digit lands in the ninth position and the result is accepted
      unless it is one repeated digit. */
  lemma RegionCompletion(state: string, base: seq<int>)
    requires state in RegionDigits
    requires |base| == 8 && forall k :: 0 <= k < 8 ==> 0 <= base[k] <= 9
    ensures var c := Complete(base + [RegionDigitByState(state)]);
            c[8] == RegionDigits[state] &&
            ValidateFirstVerifier(c) && ValidateSecondVerifier(c) &&
            (ValidString(MaskedText(c)) <==> !AllEqual(c))
  {
    RegionDigitIsLookup(state);
    RegionTableWellFormed();
    var nine := base + [RegionDigits[state]];
    CompletionAccepted(nine);
  }
}
