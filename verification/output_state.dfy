/** Model of the computation inside `B1500Module.is_enabled`: the reply to
    the output-switch status query is stripped of every character that is
    not a digit or a comma (`re.sub(r"[^,\d]", "", response)`), split on
    commas (`str.split(",")`), every token is converted with `int`, and the
    module counts as enabled when all of its channels are among those
    numbers (`set(channels).issubset(...)`). The query itself is left out:
    the reply is a parameter. */
module OutputState {
  import opened Chars
  import opened Wrappers

  /** The characters `[,\d]` that the substitution keeps. */
  predicate Kept(c: char) {
    IsDigit(c) || c == ','
  }

  predicate AllKept(t: string) {
    forall i :: 0 <= i < |t| ==> Kept(t[i])
  }

  /** `re.sub(r"[^,\d]", "", response)`: the kept characters, in order. */
  function KeepDigitsAndCommas(response: string): (t: string)
    ensures AllKept(t)
    ensures |t| <= |response|
  {
    if |response| == 0 then ""
    else (if Kept(response[0]) then [response[0]] else []) + KeepDigitsAndCommas(response[1..])
  }

  /** The substitution works character by character, so it distributes over
      concatenation: a deleted character never separates or joins the kept
      text around it. */
  lemma {:induction false} KeepAppend(a: string, b: string)
    ensures KeepDigitsAndCommas(a + b) == KeepDigitsAndCommas(a) + KeepDigitsAndCommas(b)
    decreases |a|
  {
    if |a| > 0 {
      assert (a + b)[0] == a[0];
      assert (a + b)[1..] == a[1..] + b;
      KeepAppend(a[1..], b);
    } else {
      assert a + b == b;
    }
  }

  /** Text made only of digits and commas passes unchanged; so the
      substitution is idempotent. */
  lemma {:induction false} KeepClean(t: string)
    requires AllKept(t)
    ensures KeepDigitsAndCommas(t) == t
    decreases |t|
  {
    if |t| > 0 {
      KeepClean(t[1..]);
    }
  }

  /** Text with no digit and no comma disappears. */
  lemma {:induction false} KeepNothing(t: string)
    requires forall i :: 0 <= i < |t| ==> !Kept(t[i])
    ensures KeepDigitsAndCommas(t) == ""
    decreases |t|
  {
    if |t| > 0 {
      KeepNothing(t[1..]);
    }
  }

  /** `str.split(",")`: the pieces between commas, empty pieces included;
      the empty text gives one empty piece. */
  function Split(t: string): (tokens: seq<string>)
    ensures |tokens| >= 1
    ensures forall k :: 0 <= k < |tokens| ==> ',' !in tokens[k]
  {
    if |t| == 0 then [""]
    else
      var rest := Split(t[1..]);
      if t[0] == ',' then [""] + rest
      else [[t[0]] + rest[0]] + rest[1..]
  }

  /** `",".join(tokens)`, the inverse of `Split`. */
  function Join(tokens: seq<string>): string
    requires |tokens| >= 1
  {
    if |tokens| == 1 then tokens[0] else tokens[0] + "," + Join(tokens[1..])
  }

  /** Joining the pieces gives back the text. */
  lemma {:induction false} JoinSplit(t: string)
    ensures Join(Split(t)) == t
  {
    if |t| > 0 {
      var rest := Split(t[1..]);
      JoinSplit(t[1..]);
      if t[0] == ',' {
        assert ([""] + rest)[1..] == rest;
      } else {
        var tokens := [[t[0]] + rest[0]] + rest[1..];
        if |rest| == 1 {
          assert tokens == [[t[0]] + rest[0]];
        } else {
          assert tokens[1..] == rest[1..];
          assert Join(rest) == rest[0] + "," + Join(rest[1..]);
        }
      }
    }
  }

  /** A comma-free piece in front of a text joins the first token. */
  lemma {:induction false} SplitAfterPiece(w: string, t: string)
    requires ',' !in w
    ensures Split(w + t) == [w + Split(t)[0]] + Split(t)[1..]
    decreases |w|
  {
    if |w| > 0 {
      assert (w + t)[1..] == w[1..] + t;
      assert ',' !in w[1..] by {
        forall i | 0 <= i < |w[1..]|
          ensures w[1..][i] != ','
        {
          assert w[1..][i] == w[i + 1];
        }
      }
      SplitAfterPiece(w[1..], t);
      var rest := Split(w[1..] + t);
      assert rest[0] == w[1..] + Split(t)[0] && rest[1..] == Split(t)[1..];
      assert (w + t)[0] == w[0] && w[0] != ',';
      assert [w[0]] + (w[1..] + Split(t)[0]) == w + Split(t)[0];
    } else {
      assert w + t == t && w + Split(t)[0] == Split(t)[0];
      assert Split(t) == [Split(t)[0]] + Split(t)[1..];
    }
  }

  /** Splitting the joined pieces gives back the pieces, provided none of
      them contains a comma. */
  lemma {:induction false} SplitJoin(tokens: seq<string>)
    requires |tokens| >= 1
    requires forall k :: 0 <= k < |tokens| ==> ',' !in tokens[k]
    ensures Split(Join(tokens)) == tokens
    decreases |tokens|
  {
    if |tokens| == 1 {
      SplitAfterPiece(tokens[0], "");
      assert Split("") == [""];
      assert tokens[0] + "" == tokens[0];
      assert tokens == [tokens[0]];
    } else {
      var rest := Join(tokens[1..]);
      SplitJoin(tokens[1..]);
      assert Join(tokens) == tokens[0] + ("," + rest);
      SplitAfterPiece(tokens[0], "," + rest);
      assert ("," + rest)[0] == ',' && ("," + rest)[1..] == rest;
      assert Split("," + rest) == [""] + tokens[1..];
      assert tokens[0] + "" == tokens[0];
      assert ([""] + tokens[1..])[1..] == tokens[1..];
      assert tokens == [tokens[0]] + tokens[1..];
    }
  }

  /** The pieces of clean text are digit strings (possibly empty). */
  lemma {:induction false} SplitDigits(t: string)
    requires AllKept(t)
    ensures forall tk :: tk in Split(t) ==> AllIn(tk, Digit)
  {
    if |t| > 0 {
      SplitDigits(t[1..]);
      var rest := Split(t[1..]);
      if t[0] != ',' {
        var first := [t[0]] + rest[0];
        assert AllIn(first, Digit) by {
          assert AllIn(rest[0], Digit);
          forall i | 0 <= i < |first|
            ensures InClass(first[i], Digit)
          {
            if i > 0 {
              assert first[i] == rest[0][i - 1];
            }
          }
        }
      }
    }
  }

  /** A comma that ends the text or is followed by another comma. */
  predicate CommaBeforeGap(t: string) {
    exists i :: 0 <= i < |t| && t[i] == ',' && (i + 1 == |t| || t[i + 1] == ',')
  }

  /** The pieces after the first are empty exactly at a comma that ends the
      text or is followed by a comma. */
  lemma {:induction false} EmptyLaterPiece(t: string)
    ensures Split(t)[0] == "" <==> |t| == 0 || t[0] == ','
    ensures "" in Split(t)[1..] <==> CommaBeforeGap(t)
  {
    if |t| > 0 {
      var rest := Split(t[1..]);
      EmptyLaterPiece(t[1..]);
      if t[0] == ',' {
        assert Split(t)[1..] == rest;
        assert "" in rest <==> rest[0] == "" || "" in rest[1..] by {
          assert rest == [rest[0]] + rest[1..];
        }
        if CommaBeforeGap(t[1..]) {
          var i :| 0 <= i < |t[1..]| && t[1..][i] == ',' && (i + 1 == |t[1..]| || t[1..][i + 1] == ',');
          assert t[i + 1] == ',' && (i + 2 == |t| || t[i + 2] == ',');
        }
        if CommaBeforeGap(t) && !(|t| == 1 || t[1] == ',') {
          var i :| 0 <= i < |t| && t[i] == ',' && (i + 1 == |t| || t[i + 1] == ',');
          assert i > 0;
          assert t[1..][i - 1] == ',';
        }
      } else {
        assert Split(t)[1..] == rest[1..];
        if CommaBeforeGap(t[1..]) {
          var i :| 0 <= i < |t[1..]| && t[1..][i] == ',' && (i + 1 == |t[1..]| || t[1..][i + 1] == ',');
          assert t[i + 1] == ',' && (i + 2 == |t| || t[i + 2] == ',');
        }
        if CommaBeforeGap(t) {
          var i :| 0 <= i < |t| && t[i] == ',' && (i + 1 == |t| || t[i + 1] == ',');
          assert t[1..][i - 1] == ',';
        }
      }
    }
  }

  /** An empty piece appears exactly when the text is empty, starts or ends
      with a comma, or has two commas in a row. */
  lemma EmptyPieceIff(t: string)
    ensures "" in Split(t) <==>
      || |t| == 0 || t[0] == ',' || t[|t| - 1] == ','
      || exists i :: 0 <= i < |t| - 1 && t[i] == ',' && t[i + 1] == ','
  {
    EmptyLaterPiece(t);
    var tokens := Split(t);
    assert tokens == [tokens[0]] + tokens[1..];
    if |t| > 0 && t[|t| - 1] == ',' {
      assert CommaBeforeGap(t);
    }
    if exists i :: 0 <= i < |t| - 1 && t[i] == ',' && t[i + 1] == ',' {
      var i :| 0 <= i < |t| - 1 && t[i] == ',' && t[i + 1] == ',';
      assert CommaBeforeGap(t);
    }
  }

  /** The `ValueError` that `int("")` raises. */
  datatype IntError = EmptyToken

  /** `int(x)` on a piece of the filtered reply: the piece holds only ASCII
      digits, so `int` fails only on the empty piece (Python's limit on the
      number of digits `int` accepts is not modelled). */
  function ToInt(token: string): (r: Result<int, IntError>)
    requires AllIn(token, Digit)
    ensures r.Err? <==> token == ""
    ensures r.Ok? ==> r.value >= 0
  {
    if token == "" then Err(EmptyToken) else Ok(DigitsValue(token))
  }

  /** `int` reads back the decimal spelling of a number. */
  lemma ToIntOfSpelling(n: nat)
    ensures ToInt(NatToDigits(n)) == Ok(n)
  {
    NatToDigitsRoundTrip(n);
  }

  /** `int(x) for x in tokens`, consumed in full as `issubset` does with a
      non-set argument: the first failing conversion raises. */
  function ToInts(tokens: seq<string>): (r: Result<seq<int>, IntError>)
    requires forall tk :: tk in tokens ==> AllIn(tk, Digit)
    ensures r.Err? <==> "" in tokens
    ensures r.Ok? ==> |r.value| == |tokens|
    ensures r.Ok? ==> forall k :: 0 <= k < |tokens| ==> ToInt(tokens[k]) == Ok(r.value[k])
  {
    if |tokens| == 0 then Ok([])
    else
      match ToInt(tokens[0])
      case Err(e) => Err(e)
      case Ok(n) =>
        match ToInts(tokens[1..])
        case Err(e) => Err(e)
        case Ok(ns) => Ok([n] + ns)
  }

  /** The numbers spelled by the non-empty pieces. */
  function NumbersOf(tokens: seq<string>): set<int>
    requires forall tk :: tk in tokens ==> AllIn(tk, Digit)
  {
    set tk | tk in tokens && tk != "" :: DigitsValue(tk)
  }

  /** The channels the reply reports closed. */
  function ClosedChannels(response: string): set<int>
  {
    var t := KeepDigitsAndCommas(response);
    SplitDigits(t);
    NumbersOf(Split(t))
  }

  /** The numbers `ToInts` gives, when it succeeds, are those the pieces
      spell. */
  lemma ValuesAreNumbers(tokens: seq<string>, values: seq<int>)
    requires forall tk :: tk in tokens ==> AllIn(tk, Digit)
    requires ToInts(tokens) == Ok(values)
    ensures forall c :: c in values <==> c in NumbersOf(tokens)
  {
    forall c
      ensures c in values <==> c in NumbersOf(tokens)
    {
      if c in values {
        var k :| 0 <= k < |values| && values[k] == c;
        assert tokens[k] in tokens && tokens[k] != "";
      }
      if c in NumbersOf(tokens) {
        var tk :| tk in tokens && tk != "" && DigitsValue(tk) == c;
        var k :| 0 <= k < |tokens| && tokens[k] == tk;
        assert values[k] == c;
      }
    }
  }

  /** `set(xs).issubset(ys)` as membership. */
  lemma SubsetOfMembers(xs: seq<int>, ys: seq<int>)
    ensures (set x | x in xs) <= (set y | y in ys) <==> forall x :: x in xs ==> x in ys
  {
    var small, large := set x | x in xs, set y | y in ys;
    if forall x :: x in xs ==> x in ys {
      forall x | x in small
        ensures x in large
      {
        assert x in xs;
      }
    }
    if small <= large {
      forall x | x in xs
        ensures x in ys
      {
        assert x in small;
      }
    }
  }

  /** `is_enabled` on a given reply. It fails exactly when the filtered
      reply has an empty piece; otherwise it is true exactly when every
      channel of the module is reported closed (all or nothing). */
  function IsEnabled(channels: seq<int>, response: string): (r: Result<bool, IntError>)
    ensures r.Err? <==> "" in Split(KeepDigitsAndCommas(response))
    ensures r.Ok? ==> (r.value <==> forall c :: c in channels ==> c in ClosedChannels(response))
  {
    var t := KeepDigitsAndCommas(response);
    SplitDigits(t);
    match ToInts(Split(t))
    case Err(e) => Err(e)
    case Ok(values) =>
      ValuesAreNumbers(Split(t), values);
      SubsetOfMembers(channels, values);
      Ok((set c | c in channels) <= (set v | v in values))
  }

  /** `is_enabled` raises exactly when the filtered reply is empty, starts
      or ends with a comma, or holds two commas in a row, whatever the
      channels of the module. */
  lemma IsEnabledFailsIff(channels: seq<int>, response: string)
    ensures var t := KeepDigitsAndCommas(response);
      IsEnabled(channels, response).Err? <==>
        || |t| == 0 || t[0] == ',' || t[|t| - 1] == ','
        || exists i :: 0 <= i < |t| - 1 && t[i] == ',' && t[i + 1] == ','
  {
    EmptyPieceIff(KeepDigitsAndCommas(response));
  }

  /** The decimal spellings of the closed channels, joined by commas. */
  function ChannelList(closed: seq<nat>): (t: string)
    requires |closed| >= 1
  {
    Join(Spellings(closed))
  }

  function Spellings(closed: seq<nat>): (spellings: seq<string>)
    ensures |spellings| == |closed|
    ensures forall k :: 0 <= k < |closed| ==> spellings[k] == NatToDigits(closed[k])
  {
    if |closed| == 0 then [] else [NatToDigits(closed[0])] + Spellings(closed[1..])
  }

  predicate NoneKept(t: string) {
    forall i :: 0 <= i < |t| ==> !Kept(t[i])
  }

  lemma {:induction false} JoinedDigitsAreClean(tokens: seq<string>)
    requires |tokens| >= 1
    requires forall k :: 0 <= k < |tokens| ==> IsDigits(tokens[k])
    ensures AllKept(Join(tokens))
    decreases |tokens|
  {
    if |tokens| > 1 {
      JoinedDigitsAreClean(tokens[1..]);
    }
    var j := Join(tokens);
    forall i | 0 <= i < |j|
      ensures Kept(j[i])
    {
      if i < |tokens[0]| {
        assert InClass(tokens[0][i], Digit);
      }
    }
  }

  /** A reply whose digits and commas spell the non-empty list `closed`
      makes the module enabled exactly when all of its channels are in the
      list. */
  lemma FilteredRoundTrip(channels: seq<int>, response: string, closed: seq<nat>)
    requires |closed| >= 1 && KeepDigitsAndCommas(response) == ChannelList(closed)
    ensures IsEnabled(channels, response) == Ok(forall c :: c in channels ==> c in closed)
  {
    var spellings := Spellings(closed);
    var list := ChannelList(closed);
    forall k | 0 <= k < |spellings|
      ensures ',' !in spellings[k]
    {
      assert AllIn(spellings[k], Digit);
      forall i | 0 <= i < |spellings[k]|
        ensures spellings[k][i] != ','
      {
        assert InClass(spellings[k][i], Digit);
      }
    }
    SplitJoin(spellings);
    assert "" !in spellings;
    forall c
      ensures c in ClosedChannels(response) <==> c in closed
    {
      if c in closed {
        var k :| 0 <= k < |closed| && closed[k] == c;
        ToIntOfSpelling(closed[k]);
        assert spellings[k] in Split(list);
      }
      if c in ClosedChannels(response) {
        var tk :| tk in spellings && tk != "" && DigitsValue(tk) == c;
        var k :| 0 <= k < |spellings| && spellings[k] == tk;
        ToIntOfSpelling(closed[k]);
      }
    }
  }

  /** Round trip: a reply that reports the non-empty list `closed` between
      a lead and a tail free of digits and commas (such as `CN1,2;`) makes
      the module enabled exactly when all of its channels are in the list. */
  lemma ReplyRoundTrip(channels: seq<int>, lead: string, closed: seq<nat>, tail: string)
    requires |closed| >= 1 && NoneKept(lead) && NoneKept(tail)
    ensures IsEnabled(channels, lead + ChannelList(closed) + tail)
         == Ok(forall c :: c in channels ==> c in closed)
  {
    var spellings := Spellings(closed);
    var list := ChannelList(closed);
    JoinedDigitsAreClean(spellings);
    KeepAppend(lead + list, tail);
    KeepAppend(lead, list);
    KeepNothing(lead);
    KeepNothing(tail);
    KeepClean(list);
    FilteredRoundTrip(channels, lead + list + tail, closed);
  }

  lemma SmallSpelling(n: nat)
    requires n < 10
    ensures NatToDigits(n) == [DigitChar(n)]
  {
  }

  /** Channels 1 and 2 are both closed: the module is enabled. */
  lemma EnabledExample()
    ensures IsEnabled([1, 2], "CN1,2") == Ok(true)
  {
    var closed: seq<nat> := [1, 2];
    var spellings := Spellings(closed);
    SmallSpelling(1);
    SmallSpelling(2);
    assert spellings == ["1", "2"] && spellings[1..] == ["2"];
    assert ChannelList(closed) == "1" + "," + "2";
    assert "CN" + ChannelList(closed) + "" == "CN1,2";
    ReplyRoundTrip([1, 2], "CN", closed, "");
    assert closed[0] == 1 && closed[1] == 2;
    assert forall c :: c in [1, 2] ==> c in closed;
  }

  /** Only channel 1 is closed: a module with channels 1 and 2 is not
      enabled. */
  lemma PartlyEnabledExample()
    ensures IsEnabled([1, 2], "CN1") == Ok(false)
  {
    var closed: seq<nat> := [1];
    SmallSpelling(1);
    assert ChannelList(closed) == "1";
    ReplyRoundTrip([1, 2], "CN", closed, "");
    assert "CN" + "1" + "" == "CN1";
    assert 2 in [1, 2] && 2 !in closed;
  }

  /** Two groups of one digit each, separated by text with no digit and no
      comma, run together once the filter has removed that text. */
  lemma GroupsRunTogether(lead: string, a: char, middle: string, b: char)
    requires NoneKept(lead) && NoneKept(middle) && IsDigit(a) && IsDigit(b)
    ensures KeepDigitsAndCommas(lead + [a] + middle + [b]) == [a, b]
  {
    KeepNothing(lead);
    KeepNothing(middle);
    KeepAppend(lead + [a] + middle, [b]);
    KeepAppend(lead + [a], middle);
    KeepAppend(lead, [a]);
    var sa: string, sb: string := [a], [b];
    assert sa[1..] == [] && sb[1..] == [];
  }

  /** The two `CN` groups of `CN1;CN2` run together. */
  lemma SemicolonGroupsFilter()
    ensures KeepDigitsAndCommas("CN1;CN2") == "12"
  {
    GroupsRunTogether("CN", '1', ";CN", '2');
    assert "CN1;CN2" == "CN" + ['1'] + ";CN" + ['2'];
  }

  /** So `CN1;CN2` reads as channel 12, and a module with channels 1 and 2
      is not enabled. */
  lemma SemicolonGroupsExample()
    ensures IsEnabled([1, 2], "CN1;CN2") == Ok(false)
  {
    SemicolonGroupsFilter();
    var closed: seq<nat> := [12];
    SmallSpelling(1);
    assert NatToDigits(12) == "12";
    assert ChannelList(closed) == "12";
    FilteredRoundTrip([1, 2], "CN1;CN2", closed);
    assert 1 in [1, 2] && 1 !in closed;
  }

  /** As written: a reply in which no relay is closed (no digit and no
      comma, such as `CL`) filters to the empty text, whose only piece is
      empty, so `int("")` raises instead of `is_enabled` returning false. */
  lemma NoClosedRelayRaises(channels: seq<int>, response: string)
    requires NoneKept(response)
    ensures IsEnabled(channels, response) == Err(EmptyToken)
  {
    KeepNothing(response);
    assert Split("") == [""];
  }

  /** The reply after all relays of channels 1 and 2 are opened. */
  lemma OpenRelayExample()
    ensures IsEnabled([1, 2], "CL") == Err(EmptyToken)
  {
    NoClosedRelayRaises([1, 2], "CL");
  }

  /** The non-empty pieces of a split. */
  function NonEmpty(tokens: seq<string>): (kept: seq<string>)
    ensures "" !in kept
    ensures forall tk :: tk in kept <==> tk in tokens && tk != ""
  {
    if |tokens| == 0 then []
    else (if tokens[0] == "" then [] else [tokens[0]]) + NonEmpty(tokens[1..])
  }

  /** `is_enabled` as its documentation promises it (true when every
      channel is closed, false otherwise): empty pieces are skipped instead
      of being handed to `int`. */
  function IsEnabledIgnoringEmpty(channels: seq<int>, response: string): (enabled: bool)
    ensures enabled <==> forall c :: c in channels ==> c in ClosedChannels(response)
  {
    var t := KeepDigitsAndCommas(response);
    SplitDigits(t);
    var tokens := NonEmpty(Split(t));
    var values := ToInts(tokens).value;
    ValuesAreNumbers(tokens, values);
    SubsetOfMembers(channels, values);
    (set c | c in channels) <= (set v | v in values)
  }

  /** Wherever the code as written answers, the corrected version gives
      the same answer. */
  lemma IgnoringEmptyAgrees(channels: seq<int>, response: string)
    requires IsEnabled(channels, response).Ok?
    ensures IsEnabledIgnoringEmpty(channels, response) == IsEnabled(channels, response).value
  {
  }

  lemma NoNumbersInEmptyPieces(tokens: seq<string>)
    requires forall k :: 0 <= k < |tokens| ==> tokens[k] == ""
    ensures NumbersOf(tokens) == {}
  {
  }

  /** The corrected version answers false, not an error, once no relay of
      a module with channels is closed. */
  lemma IgnoringEmptyOpenRelays(channels: seq<int>, response: string)
    requires |channels| >= 1 && NoneKept(response)
    ensures !IsEnabledIgnoringEmpty(channels, response)
  {
    KeepNothing(response);
    var tokens := Split(KeepDigitsAndCommas(response));
    assert tokens == [""];
    NoNumbersInEmptyPieces(tokens);
    assert ClosedChannels(response) == NumbersOf(tokens);
    var c := channels[0];
    assert c in channels && c !in ClosedChannels(response);
  }
}
