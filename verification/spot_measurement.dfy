/** Model of `parse_spot_measurement_response`: the reply to a spot
    measurement is matched, from its first character on (`re.match`, so text
    after the match is ignored), against

      ((\w)(\w)(\w))?([+-]\d{1,3}\.\d{3,6}E[+-]\d{2})

    An optional group of three word characters (status, channel number, data
    type) comes first; the measured value follows. A reply that does not
    match is an error. The value is kept as its exact decimal fields and
    their exact real value. */
module SpotMeasurement {
  import opened Chars
  import opened Wrappers

  predicate IsSign(c: char) {
    c == '+' || c == '-'
  }

  function SignChar(negative: bool): (c: char)
    ensures IsSign(c) && !IsWordChar(c) && !IsDigit(c)
  {
    if negative then '-' else '+'
  }

  /** The value group `[+-]\d{1,3}\.\d{3,6}E[+-]\d{2}`, field by field. */
  datatype Decimal = Decimal(
    negative: bool,
    integer: string,
    fraction: string,
    expNegative: bool,
    exponent: string)

  /** The digit counts the pattern allows. */
  predicate WellFormedDecimal(v: Decimal) {
    && 1 <= |v.integer| <= 3 && AllIn(v.integer, Digit)
    && 3 <= |v.fraction| <= 6 && AllIn(v.fraction, Digit)
    && |v.exponent| == 2 && AllIn(v.exponent, Digit)
  }

  /** The text of a value. */
  function ValueText(v: Decimal): (text: string)
    ensures |text| == |v.integer| + |v.fraction| + |v.exponent| + 4
  {
    [SignChar(v.negative)] + v.integer + "." + v.fraction + "E" + [SignChar(v.expNegative)] + v.exponent
  }

  /** `v` is the value the pattern matches at the start of `t`: the sign,
      the integer digits, the point, the fraction digits, `E`, the exponent
      sign and the two exponent digits lie at the start of `t` in that
      order. */
  predicate IsValue(t: string, v: Decimal) {
    var a := 1 + |v.integer|;
    var b := a + 1 + |v.fraction|;
    && WellFormedDecimal(v)
    && b + 4 <= |t|
    && t[0] == SignChar(v.negative)
    && t[1..a] == v.integer
    && t[a] == '.'
    && t[a + 1..b] == v.fraction
    && t[b] == 'E'
    && t[b + 1] == SignChar(v.expNegative)
    && t[b + 2..b + 4] == v.exponent
  }

  /** The value group matched at the start of `t`, if any. Each `\d{m,n}`
      is followed by a non-digit (`.` or `E`), so backtracking cannot help
      it: the group matches exactly when the whole digit run has an allowed
      length. */
  function ParseValue(t: string): (r: Option<Decimal>)
  {
    if |t| == 0 || !IsSign(t[0]) then None
    else
      var n := RunLength(t, 1, Digit);
      var a := 1 + n;
      if n < 1 || n > 3 || a == |t| || t[a] != '.' then None
      else
        var m := RunLength(t, a + 1, Digit);
        var b := a + 1 + m;
        if m < 3 || m > 6 || b + 4 > |t| || t[b] != 'E' || !IsSign(t[b + 1])
          || !IsDigit(t[b + 2]) || !IsDigit(t[b + 3])
        then None
        else Some(Decimal(t[0] == '-', t[1..a], t[a + 1..b], t[b + 1] == '-', t[b + 2..b + 4]))
  }

  /** A run of digits read by `RunLength` is a digit string. */
  lemma DigitRunIsDigits(t: string, k: nat, n: nat)
    requires k <= |t| && n == RunLength(t, k, Digit)
    ensures AllIn(t[k..k + n], Digit)
    ensures k + n == |t| || !IsDigit(t[k + n])
  {
    RunLengthIsMaximalRun(t, k, Digit);
    var w := t[k..k + n];
    forall x | 0 <= x < |w|
      ensures InClass(w[x], Digit)
    {
      assert w[x] == t[k + x];
    }
  }

  /** A digit string followed by a non-digit is the digit run there. */
  lemma DigitsAreRun(t: string, k: nat, w: string)
    requires k + |w| <= |t| && t[k..k + |w|] == w && AllIn(w, Digit)
    requires k + |w| == |t| || !IsDigit(t[k + |w|])
    ensures RunLength(t, k, Digit) == |w|
  {
    forall x | k <= x < k + |w|
      ensures InClass(t[x], Digit)
    {
      assert t[x] == w[x - k];
    }
    RunLengthUnique(t, k, Digit, |w|);
  }

  /** The scanner is correct: it returns `v` exactly when `v` is the value
      at the start of `t`. In particular at most one value matches there. */
  lemma ParseValueExact(t: string, v: Decimal)
    ensures ParseValue(t) == Some(v) <==> IsValue(t, v)
  {
    if ParseValue(t).Some? {
      ParseValueSound(t);
    }
    if IsValue(t, v) {
      ParseValueComplete(t, v);
    }
  }

  lemma ParseValueSound(t: string)
    requires ParseValue(t).Some?
    ensures IsValue(t, ParseValue(t).value)
  {
    var n := RunLength(t, 1, Digit);
    var a := 1 + n;
    var m := RunLength(t, a + 1, Digit);
    DigitRunIsDigits(t, 1, n);
    DigitRunIsDigits(t, a + 1, m);
    var v := ParseValue(t).value;
    assert AllIn(v.exponent, Digit) by {
      assert v.exponent[0] == t[a + 1 + m + 2] && v.exponent[1] == t[a + 1 + m + 3];
    }
  }

  lemma ParseValueComplete(t: string, v: Decimal)
    requires IsValue(t, v)
    ensures ParseValue(t) == Some(v)
  {
    var a := 1 + |v.integer|;
    var b := a + 1 + |v.fraction|;
    DigitsAreRun(t, 1, v.integer);
    DigitsAreRun(t, a + 1, v.fraction);
    assert InClass(v.exponent[0], Digit) && InClass(v.exponent[1], Digit);
    assert t[b + 2] == v.exponent[0] && t[b + 3] == v.exponent[1];
  }

  /** Where the fields sit in the text of a value. */
  lemma ValueTextParts(v: Decimal)
    ensures var text := ValueText(v);
      var a := 1 + |v.integer|;
      var b := a + 1 + |v.fraction|;
      && text[0] == SignChar(v.negative)
      && text[1..a] == v.integer
      && text[a] == '.'
      && text[a + 1..b] == v.fraction
      && text[b] == 'E'
      && text[b + 1] == SignChar(v.expNegative)
      && text[b + 2..] == v.exponent
  {
    var a := 1 + |v.integer|;
    var b := a + 1 + |v.fraction|;
    var s2 := [SignChar(v.negative)] + v.integer;
    var s4 := s2 + "." + v.fraction;
    var s6 := s4 + "E" + [SignChar(v.expNegative)];
    var text := ValueText(v);
    assert text == s6 + v.exponent;
    assert text[..b + 2] == s6;
    assert s6[..b] == s4;
    assert s4[..a] == s2;
    assert s2[1..] == v.integer;
    assert s4[a + 1..] == v.fraction;
  }

  /** A value is recognised by its text: `v` matches at the start of `t`
      exactly when it is well formed and `t` begins with its text. */
  lemma IsValueByText(t: string, v: Decimal)
    ensures IsValue(t, v) <==> WellFormedDecimal(v) && ValueText(v) <= t
  {
    if WellFormedDecimal(v) && ValueText(v) <= t {
      ValueFromText(t, v);
    }
    if IsValue(t, v) {
      TextFromValue(t, v);
    }
  }

  lemma ValueFromText(t: string, v: Decimal)
    requires WellFormedDecimal(v) && ValueText(v) <= t
    ensures IsValue(t, v)
  {
    var a := 1 + |v.integer|;
    var b := a + 1 + |v.fraction|;
    var text := ValueText(v);
    ValueTextParts(v);
    var u := t[..|text|];
    assert u == text;
    assert t[1..a] == u[1..a];
    assert t[a + 1..b] == u[a + 1..b];
    assert t[b + 2..b + 4] == u[b + 2..];
  }

  lemma TextFromValue(t: string, v: Decimal)
    requires IsValue(t, v)
    ensures ValueText(v) <= t
  {
    var a := 1 + |v.integer|;
    var b := a + 1 + |v.fraction|;
    var text := ValueText(v);
    ValueTextParts(v);
    forall k | 0 <= k < |text|
      ensures t[k] == text[k]
    {
      if 0 < k < a {
        assert t[k] == t[1..a][k - 1] && text[k] == text[1..a][k - 1];
      } else if a < k < b {
        assert t[k] == t[a + 1..b][k - a - 1] && text[k] == text[a + 1..b][k - a - 1];
      } else if b + 1 < k {
        assert t[k] == t[b + 2..b + 4][k - b - 2] && text[k] == text[b + 2..][k - b - 2];
      }
    }
    assert t[..|text|] == text;
  }

  /** The groups of one match of the whole pattern, before `float` is
      applied to the value. */
  datatype SpotMatch = SpotMatch(
    status: Option<char>,
    chnr: Option<char>,
    dtype: Option<char>,
    value: Decimal)

  /** The optional group is matched as a whole: its three fields are all
      present, each a word character, or all absent. */
  predicate WellFormedSpot(m: SpotMatch) {
    && WellFormedDecimal(m.value)
    && ((m.status.Some? && m.chnr.Some? && m.dtype.Some?) || (m.status.None? && m.chnr.None? && m.dtype.None?))
    && (m.status.Some? ==> IsWordChar(m.status.value) && IsWordChar(m.chnr.value) && IsWordChar(m.dtype.value))
  }

  /** The text a match consumes. */
  function SpotText(m: SpotMatch): string
    requires WellFormedSpot(m)
  {
    (if m.status.Some? then [m.status.value, m.chnr.value, m.dtype.value] else []) + ValueText(m.value)
  }

  /** `m` is a match of the whole pattern at the start of `s`. */
  predicate IsSpotMatch(s: string, m: SpotMatch) {
    WellFormedSpot(m) && SpotText(m) <= s
  }

  predicate HasWordPrefix(s: string) {
    |s| >= 3 && IsWordChar(s[0]) && IsWordChar(s[1]) && IsWordChar(s[2])
  }

  /** `re.match` of the pattern: the optional group is tried first (three
      word characters, then the value); if that fails the engine backtracks
      and tries the value alone at the start. */
  function MatchSpot(s: string): (r: Option<SpotMatch>)
  {
    if HasWordPrefix(s) && ParseValue(s[3..]).Some? then
      Some(SpotMatch(Some(s[0]), Some(s[1]), Some(s[2]), ParseValue(s[3..]).value))
    else
      match ParseValue(s)
      case Some(v) => Some(SpotMatch(None, None, None, v))
      case None => None
  }

  /** A prefix made of two parts. */
  lemma PrefixConcat(x: string, y: string, s: string)
    ensures x + y <= s <==> x <= s && y <= s[|x|..]
  {
    if x <= s && y <= s[|x|..] {
      assert (x + y)[..|x|] == x;
      assert s[..|x| + |y|] == s[..|x|] + s[|x|..][..|y|];
    }
    if x + y <= s {
      assert s[..|x|] == (x + y)[..|x|];
      assert s[|x|..][..|y|] == (x + y)[|x|..];
    }
  }

  /** A match with the optional group present, read from its parts. */
  lemma PrefixedMatchParts(s: string, m: SpotMatch)
    requires WellFormedSpot(m) && m.status.Some?
    ensures IsSpotMatch(s, m) <==>
      && HasWordPrefix(s)
      && m.status == Some(s[0]) && m.chnr == Some(s[1]) && m.dtype == Some(s[2])
      && IsValue(s[3..], m.value)
  {
    var lead := [m.status.value, m.chnr.value, m.dtype.value];
    PrefixConcat(lead, ValueText(m.value), s);
    if |s| >= 3 {
      IsValueByText(s[3..], m.value);
    }
    if lead <= s {
      assert s[0] == lead[0] && s[1] == lead[1] && s[2] == lead[2];
    }
    if |s| >= 3 && m.status == Some(s[0]) && m.chnr == Some(s[1]) && m.dtype == Some(s[2]) {
      assert s[..3] == lead;
    }
  }

  /** A match with the optional group absent is a value at the start. */
  lemma BareMatchParts(s: string, m: SpotMatch)
    requires WellFormedSpot(m) && m.status.None?
    ensures IsSpotMatch(s, m) <==> IsValue(s, m.value)
  {
    assert SpotText(m) == ValueText(m.value);
    IsValueByText(s, m.value);
  }

  /** The matcher is correct: it returns `m` exactly when `m` matches at the
      start of `s`. The two alternatives never compete, since a value starts
      with a sign and the optional group with a word character, so at most
      one match exists and the engine's preference for the optional group
      never decides anything. */
  lemma MatchSpotExact(s: string, m: SpotMatch)
    ensures MatchSpot(s) == Some(m) <==> IsSpotMatch(s, m)
  {
    if WellFormedSpot(m) {
      if m.status.Some? {
        PrefixedMatchParts(s, m);
        if |s| >= 3 {
          ParseValueExact(s[3..], m.value);
        }
      } else {
        BareMatchParts(s, m);
        ParseValueExact(s, m.value);
        if HasWordPrefix(s) {
          assert !IsValue(s, m.value);
        }
      }
    }
    if MatchSpot(s).Some? {
      var r := MatchSpot(s).value;
      if r.status.Some? {
        ParseValueSound(s[3..]);
      } else {
        ParseValueSound(s);
      }
      assert WellFormedSpot(r);
    }
  }

  /** No match at all: the matcher reports none exactly when no prefix of
      the reply matches the pattern. */
  lemma MatchSpotNone(s: string)
    ensures MatchSpot(s).None? <==> forall m :: !IsSpotMatch(s, m)
  {
    if MatchSpot(s).Some? {
      MatchSpotExact(s, MatchSpot(s).value);
    } else {
      forall m
        ensures !IsSpotMatch(s, m)
      {
        MatchSpotExact(s, m);
      }
    }
  }

  function Pow10(n: nat): (p: nat)
    ensures p >= 1
  {
    if n == 0 then 1 else 10 * Pow10(n - 1)
  }

  /** The exact value of the decimal text; `float` in
      `parse_spot_measurement_response` rounds it to the nearest double. */
  function DecimalValue(v: Decimal): (x: real)
    requires WellFormedDecimal(v)
    ensures v.negative ==> x <= 0.0
    ensures !v.negative ==> x >= 0.0
  {
    var mantissa := DigitsValue(v.integer) as real + DigitsValue(v.fraction) as real / Pow10(|v.fraction|) as real;
    var e := Pow10(DigitsValue(v.exponent)) as real;
    var magnitude := if v.expNegative then mantissa / e else mantissa * e;
    if v.negative then -magnitude else magnitude
  }

  /** The dictionary `parse_spot_measurement_response` returns: the three metadata groups and the
      measured value. */
  datatype SpotReading = SpotReading(
    status: Option<char>,
    chnr: Option<char>,
    dtype: Option<char>,
    value: real)

  /** The `ValueError` raised for a reply that does not match. */
  datatype ParseError = NoMatch(response: string)

  function Reading(m: SpotMatch): SpotReading
    requires WellFormedDecimal(m.value)
  {
    SpotReading(m.status, m.chnr, m.dtype, DecimalValue(m.value))
  }

  /** `parse_spot_measurement_response`. On success the three metadata
      fields are all present or all absent, and when present they are the
      first three characters of the reply, each a word character. */
  function ParseSpotMeasurementResponse(response: string): (r: Result<SpotReading, ParseError>)
    ensures r.Err? ==> r.error == NoMatch(response)
    ensures r.Ok? ==>
      || (r.value.status.None? && r.value.chnr.None? && r.value.dtype.None?)
      || (&& |response| >= 3
          && r.value.status == Some(response[0]) && r.value.chnr == Some(response[1])
          && r.value.dtype == Some(response[2])
          && IsWordChar(response[0]) && IsWordChar(response[1]) && IsWordChar(response[2]))
  {
    match MatchSpot(response)
    case None => Err(NoMatch(response))
    case Some(m) =>
      MatchSpotExact(response, m);
      Ok(Reading(m))
  }

  /** The result in terms of the grammar: success with the reading of `m`
      exactly when `m` matches at the start of the reply, and the error
      exactly when nothing does. */
  lemma ParseSpotSpec(response: string, m: SpotMatch)
    ensures IsSpotMatch(response, m) ==> ParseSpotMeasurementResponse(response) == Ok(Reading(m))
    ensures ParseSpotMeasurementResponse(response).Err? <==> forall m' :: !IsSpotMatch(response, m')
    ensures ParseSpotMeasurementResponse(response).Ok? ==>
      exists m' :: IsSpotMatch(response, m') && ParseSpotMeasurementResponse(response).value == Reading(m')
  {
    MatchSpotExact(response, m);
    MatchSpotNone(response);
    if MatchSpot(response).Some? {
      MatchSpotExact(response, MatchSpot(response).value);
    }
  }

  /** On success the value text is taken from the start of the reply, after
      the optional group: a sign, 1 to 3 digits, `.`, 3 to 6 digits, `E`, a
      sign and 2 digits. */
  lemma ParseSpotValueText(response: string)
    requires ParseSpotMeasurementResponse(response).Ok?
    ensures exists v: Decimal, k: nat ::
      && (k == 0 || (k == 3 && HasWordPrefix(response)))
      && k <= |response|
      && WellFormedDecimal(v)
      && ValueText(v) <= response[k..]
      && ParseSpotMeasurementResponse(response).value.value == DecimalValue(v)
  {
    var m := MatchSpot(response).value;
    MatchSpotExact(response, m);
    var k: nat := if m.status.Some? then 3 else 0;
    if m.status.Some? {
      PrefixedMatchParts(response, m);
      IsValueByText(response[3..], m.value);
    } else {
      BareMatchParts(response, m);
      IsValueByText(response, m.value);
    }
    assert response[k..] == response[k..];
  }

  /** Round trip: a reading rendered as text, followed by anything at all,
      parses back to that reading. */
  lemma ParseSpotText(m: SpotMatch, rest: string)
    requires WellFormedSpot(m)
    ensures ParseSpotMeasurementResponse(SpotText(m) + rest) == Ok(Reading(m))
  {
    ParseSpotSpec(SpotText(m) + rest, m);
  }

  /** Characters after a match are ignored: appending to a reply that parses
      does not change the result. */
  lemma AppendKeepsReading(response: string, extra: string)
    requires ParseSpotMeasurementResponse(response).Ok?
    ensures ParseSpotMeasurementResponse(response + extra) == ParseSpotMeasurementResponse(response)
  {
    var m := MatchSpot(response).value;
    MatchSpotExact(response, m);
    assert SpotText(m) <= response + extra by {
      assert (response + extra)[..|SpotText(m)|] == response[..|SpotText(m)|];
    }
    ParseSpotSpec(response + extra, m);
  }

  /** The value starts with a sign; neither a word character nor the end of
      the reply can stand there. */
  lemma NoValueWithoutSign(t: string)
    requires |t| == 0 || !IsSign(t[0])
    ensures ParseValue(t).None?
  {
  }

  /** Three word characters not followed by a sign: the optional group finds
      no value after it, and the value cannot start at the first word
      character either. */
  lemma PrefixWithoutSignFails(response: string)
    requires HasWordPrefix(response)
    requires |response| == 3 || !IsSign(response[3])
    ensures ParseSpotMeasurementResponse(response) == Err(NoMatch(response))
  {
    NoValueWithoutSign(response[3..]);
    NoValueWithoutSign(response);
  }

  /** The value text, when the reply has one, starts at `k`: right after the
      optional group, or at the start. */
  predicate ValueStart(response: string, k: nat) {
    k <= |response| && (k == 0 || (k == 3 && HasWordPrefix(response)))
  }

  /** Both alternatives must fail for the parse to fail; when the only place
      a value could start has none, the parse fails. */
  lemma FailsWhenValueFailsAt(response: string, k: nat)
    requires ValueStart(response, k) && k < |response| && IsSign(response[k])
    requires ParseValue(response[k..]).None?
    ensures ParseSpotMeasurementResponse(response) == Err(NoMatch(response))
  {
    if k == 3 {
      NoValueWithoutSign(response);
    } else {
      assert !HasWordPrefix(response);
    }
  }

  /** Four or more integer digits: `\d{1,3}` cannot be followed by the
      point. */
  lemma TooManyIntegerDigitsFails(response: string, k: nat)
    requires ValueStart(response, k) && k + 5 <= |response| && IsSign(response[k])
    requires forall x :: k + 1 <= x < k + 5 ==> IsDigit(response[x])
    ensures ParseSpotMeasurementResponse(response) == Err(NoMatch(response))
  {
    var t := response[k..];
    assert RunLength(t, 1, Digit) >= 4 by {
      RunLengthIsMaximalRun(t, 1, Digit);
      assert IsDigit(t[1]) && IsDigit(t[2]) && IsDigit(t[3]) && IsDigit(t[4]);
    }
    FailsWhenValueFailsAt(response, k);
  }

  /** Seven or more fraction digits: `\d{3,6}` cannot be followed by `E`. */
  lemma TooManyFractionDigitsFails(response: string, k: nat, n: nat)
    requires ValueStart(response, k) && 1 <= n <= 3 && k + n + 9 <= |response|
    requires IsSign(response[k])
    requires forall x :: k + 1 <= x < k + 1 + n ==> IsDigit(response[x])
    requires response[k + 1 + n] == '.'
    requires forall x :: k + 2 + n <= x < k + 9 + n ==> IsDigit(response[x])
    ensures ParseSpotMeasurementResponse(response) == Err(NoMatch(response))
  {
    var t := response[k..];
    DigitsAreRun(t, 1, t[1..1 + n]);
    var a := 1 + n;
    assert RunLength(t, a + 1, Digit) >= 7 by {
      RunLengthIsMaximalRun(t, a + 1, Digit);
      assert forall x :: a + 1 <= x < a + 8 ==> IsDigit(t[x]);
    }
    FailsWhenValueFailsAt(response, k);
  }

  /** A reply with no sign anywhere has no match. */
  lemma ParseHelloFails()
    ensures ParseSpotMeasurementResponse("hello") == Err(NoMatch("hello"))
  {
    PrefixWithoutSignFails("hello");
  }

  /** The metadata example: status `W`, channel `A`, data type `V`, value
      +001.2345E+06. */
  function MetadataExample(): (m: SpotMatch)
    ensures WellFormedSpot(m)
  {
    SpotMatch(Some('W'), Some('A'), Some('V'), Decimal(false, "001", "2345", false, "06"))
  }

  lemma MetadataExampleText()
    ensures SpotText(MetadataExample()) + "" == "WAV+001.2345E+06"
  {
  }

  lemma MetadataExampleValue()
    ensures DecimalValue(MetadataExample().value) == 1234500.0
  {
    var v := MetadataExample().value;
    assert DigitsValue(v.integer) == 1 by {
      DigitsValueSnoc("", '0');
      DigitsValueSnoc("0", '0');
      DigitsValueSnoc("00", '1');
      assert "00" + ['1'] == v.integer;
    }
    assert DigitsValue(v.fraction) == 2345 by {
      DigitsValueSnoc("", '2');
      DigitsValueSnoc("2", '3');
      DigitsValueSnoc("23", '4');
      DigitsValueSnoc("234", '5');
      assert "234" + ['5'] == v.fraction;
    }
    assert DigitsValue(v.exponent) == 6 by {
      DigitsValueSnoc("", '0');
      DigitsValueSnoc("0", '6');
      assert "0" + ['6'] == v.exponent;
    }
    assert Pow10(|v.fraction|) == 10000 && Pow10(DigitsValue(v.exponent)) == 1000000;
    assert 1.0 + 2345.0 / 10000.0 == 1.2345;
  }

  /** A reply with the metadata group. */
  lemma ParseExampleWithMetadata()
    ensures ParseSpotMeasurementResponse("WAV+001.2345E+06")
         == Ok(SpotReading(Some('W'), Some('A'), Some('V'), 1234500.0))
  {
    MetadataExampleText();
    MetadataExampleValue();
    ParseSpotText(MetadataExample(), "");
  }

  /** The bare example: no metadata, value -001.234E-02. */
  function BareExample(): (m: SpotMatch)
    ensures WellFormedSpot(m)
  {
    SpotMatch(None, None, None, Decimal(true, "001", "234", true, "02"))
  }

  lemma BareExampleText()
    ensures SpotText(BareExample()) + "" == "-001.234E-02"
  {
  }

  lemma BareExampleValue()
    ensures DecimalValue(BareExample().value) == -0.01234
  {
    var v := BareExample().value;
    assert DigitsValue(v.integer) == 1 by {
      DigitsValueSnoc("", '0');
      DigitsValueSnoc("0", '0');
      DigitsValueSnoc("00", '1');
      assert "00" + ['1'] == v.integer;
    }
    assert DigitsValue(v.fraction) == 234 by {
      DigitsValueSnoc("", '2');
      DigitsValueSnoc("2", '3');
      DigitsValueSnoc("23", '4');
      assert "23" + ['4'] == v.fraction;
    }
    assert DigitsValue(v.exponent) == 2 by {
      DigitsValueSnoc("", '0');
      DigitsValueSnoc("0", '2');
      assert "0" + ['2'] == v.exponent;
    }
    assert Pow10(|v.fraction|) == 1000 && Pow10(DigitsValue(v.exponent)) == 100;
    assert 1.0 + 234.0 / 1000.0 == 1.234;
  }

  /** A bare value with a negative exponent. */
  lemma ParseExampleBare()
    ensures ParseSpotMeasurementResponse("-001.234E-02") == Ok(SpotReading(None, None, None, -0.01234))
  {
    BareExampleText();
    BareExampleValue();
    ParseSpotText(BareExample(), "");
  }
}
