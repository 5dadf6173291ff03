// The broker hostname check: labels between dots, against a rule on the positions of the whole text.
module MqttHostname {
  import opened Wrappers
  import opened MqttTopics

  const MAX_LABEL_LEN := 63
  const MAX_HOSTNAME_LEN := 253

  predicate Alphanumeric(c: char) {
    'a' <= c <= 'z' || 'A' <= c <= 'Z' || '0' <= c <= '9'
  }

  predicate LabelAccepted(part: string) {
    && part != "" && |part| <= MAX_LABEL_LEN
    && part[0] != '-' && part[|part| - 1] != '-'
    && forall i :: 0 <= i < |part| ==> Alphanumeric(part[i]) || part[i] == '-'
  }

  predicate LabelsAccepted(labels: seq<string>) {
    forall i :: 0 <= i < |labels| ==> LabelAccepted(labels[i])
  }

  /* ---------- the positional rule ---------- */

  const LETTERS_AND_DIGITS := "abcdefghijklmnopqrstuvwxyz" + "ABCDEFGHIJKLMNOPQRSTUVWXYZ" + "0123456789"

  lemma AlphanumericIsListed(c: char)
    ensures Alphanumeric(c) <==> c in LETTERS_AND_DIGITS
  {
  }

  /** Letters, digits, hyphens and dots; whatever starts or ends a label is a letter or a digit. */
  predicate WellPlaced(s: string, i: int)
    requires 0 <= i < |s|
  {
    && (Alphanumeric(s[i]) || s[i] == '-' || s[i] == '.')
    && (i == 0 || s[i - 1] == '.' || i + 1 == |s| || s[i + 1] == '.' ==> Alphanumeric(s[i]))
  }

  /** More than 63 characters in a row contain a dot. */
  predicate ShortLabels(s: string) {
    forall i, j :: 0 <= i <= j <= |s| && j - i > 63 ==> '.' in s[i..j]
  }

  predicate IsHostname(s: string) {
    s != "" && (forall i :: 0 <= i < |s| ==> WellPlaced(s, i)) && ShortLabels(s)
  }

  /* ---------- the split check meets the rule ---------- */

  function FirstDot(s: string): (k: nat)
    ensures k <= |s| && '.' !in s[..k] && (k < |s| ==> s[k] == '.')
  {
    if s == "" || s[0] == '.' then 0
    else
      assert s[..FirstDot(s[1..]) + 1] == [s[0]] + s[1..][..FirstDot(s[1..])];
      FirstDot(s[1..]) + 1
  }

  lemma {:induction false} SplitAtFirstDot(s: string)
    ensures var k := FirstDot(s);
      Split(s, '.') == if k == |s| then [s] else [s[..k]] + Split(s[k + 1..], '.')
  {
    if s != "" && s[0] != '.' {
      var k := FirstDot(s[1..]);
      SplitAtFirstDot(s[1..]);
      assert [s[0]] + s[1..] == s && [s[0]] + s[1..][..k] == s[..k + 1];
      if k < |s[1..]| {
        assert s[1..][k + 1..] == s[k + 2..];
      }
    }
  }

  /** A text without dots is a hostname exactly if it is a label. */
  lemma SingleLabel(s: string)
    requires '.' !in s
    ensures IsHostname(s) <==> LabelAccepted(s)
  {
    assert s[0..|s|] == s;
    if IsHostname(s) {
      assert WellPlaced(s, 0) && WellPlaced(s, |s| - 1);
      forall i | 0 <= i < |s|
        ensures Alphanumeric(s[i]) || s[i] == '-'
      {
        assert WellPlaced(s, i);
      }
    }
  }

  lemma PlacedInLabel(s: string, k: nat, i: nat)
    requires i < k < |s| && s[k] == '.'
    ensures WellPlaced(s, i) <==> WellPlaced(s[..k], i)
  {
  }

  lemma PlacedInRest(s: string, k: nat, i: nat)
    requires k < |s| && s[k] == '.' && i < |s| - k - 1
    ensures WellPlaced(s, k + 1 + i) <==> WellPlaced(s[k + 1..], i)
  {
    var t := s[k + 1..];
    assert t[i] == s[k + 1 + i];
    if i > 0 {
      assert t[i - 1] == s[k + i];
    }
    if i + 1 < |t| {
      assert t[i + 1] == s[k + 2 + i];
    }
  }

  lemma ShortAroundDot(s: string, k: nat)
    requires k < |s| && s[k] == '.'
    ensures ShortLabels(s) <==> ShortLabels(s[..k]) && ShortLabels(s[k + 1..])
  {
    var first, rest := s[..k], s[k + 1..];
    if ShortLabels(s) {
      forall i, j | 0 <= i <= j <= |first| && j - i > MAX_LABEL_LEN
        ensures '.' in first[i..j]
      {
        assert first[i..j] == s[i..j];
      }
      forall i, j | 0 <= i <= j <= |rest| && j - i > MAX_LABEL_LEN
        ensures '.' in rest[i..j]
      {
        assert rest[i..j] == s[k + 1 + i..k + 1 + j];
      }
    }
    if ShortLabels(first) && ShortLabels(rest) {
      forall i, j | 0 <= i <= j <= |s| && j - i > MAX_LABEL_LEN
        ensures '.' in s[i..j]
      {
        if j <= k {
          assert first[i..j] == s[i..j];
        } else if i > k {
          assert rest[i - k - 1..j - k - 1] == s[i..j];
        } else {
          assert s[i..j][k - i] == '.';
        }
      }
    }
  }

  /** What comes before and after a dot of a hostname are hostnames. */
  lemma HostnameParts(s: string, k: nat)
    requires k < |s| && s[k] == '.' && IsHostname(s)
    ensures IsHostname(s[..k]) && IsHostname(s[k + 1..])
  {
    var first, rest := s[..k], s[k + 1..];
    ShortAroundDot(s, k);
    assert WellPlaced(s, k);
    forall i | 0 <= i < |first|
      ensures WellPlaced(first, i)
    {
      PlacedInLabel(s, k, i);
    }
    forall i | 0 <= i < |rest|
      ensures WellPlaced(rest, i)
    {
      PlacedInRest(s, k, i);
    }
  }

  /** And hostnames joined by a dot are one. */
  lemma HostnameFromParts(s: string, k: nat)
    requires k < |s| && s[k] == '.'
    requires IsHostname(s[..k]) && IsHostname(s[k + 1..])
    ensures IsHostname(s)
  {
    var first, rest := s[..k], s[k + 1..];
    ShortAroundDot(s, k);
    assert WellPlaced(first, k - 1) && WellPlaced(rest, 0);
    forall i | 0 <= i < |s|
      ensures WellPlaced(s, i)
    {
      if i < k {
        PlacedInLabel(s, k, i);
      } else if i > k {
        PlacedInRest(s, k, i - k - 1);
      }
    }
  }

  lemma AcceptedCons(first: string, rest: seq<string>)
    ensures LabelsAccepted([first] + rest) <==> LabelAccepted(first) && LabelsAccepted(rest)
  {
    var labels := [first] + rest;
    assert labels[0] == first && labels[1..] == rest;
    if LabelsAccepted(labels) {
      forall i | 0 <= i < |rest|
        ensures LabelAccepted(rest[i])
      {
        assert labels[i + 1] == rest[i];
      }
    }
  }

  /** Checking label by label is the positional rule, for texts of any length. */
  lemma {:induction false} SplitCheckIsTheRule(s: string)
    ensures LabelsAccepted(Split(s, '.')) <==> IsHostname(s)
    decreases |s|
  {
    var k := FirstDot(s);
    SplitAtFirstDot(s);
    if k == |s| {
      assert s[..k] == s;
      AcceptedCons(s, []);
      SingleLabel(s);
    } else {
      SingleLabel(s[..k]);
      SplitCheckIsTheRule(s[k + 1..]);
      if IsHostname(s) {
        HostnameParts(s, k);
      }
      if IsHostname(s[..k]) && IsHostname(s[k + 1..]) {
        HostnameFromParts(s, k);
      }
      AcceptedCons(s[..k], Split(s[k + 1..], '.'));
    }
  }

  method ValidateHostname(value: string) returns (r: Result<(), ConfigError>)
    ensures r == if IsHostname(value) then Ok(()) else Err(InvalidHostname)
  {
    SplitCheckIsTheRule(value);
    if value != "" && value[|value| - 1] == '.' {
      assert !IsHostname(value) by {
        assert !WellPlaced(value, |value| - 1);
      }
      return Err(InvalidHostname);
    }
    var labels := Split(value, '.');
    for i := 0 to |labels|
      invariant forall k :: 0 <= k < i ==> LabelAccepted(labels[k])
    {
      if !LabelAccepted(labels[i]) {
        return Err(InvalidHostname);
      }
    }
    r := Ok(());
  }

  method NewBrokerHostname(value: string) returns (r: Result<string, ConfigError>)
    ensures r.Ok? <==> |value| <= 253 && IsHostname(value)
    ensures r.Ok? ==> r.value == value
    ensures r.Err? ==> r.error == if value == "" then Empty else if |value| > 253 then TooLong else InvalidHostname
  {
    if value == "" {
      return Err(Empty);
    }
    if |value| > MAX_HOSTNAME_LEN {
      return Err(TooLong);
    }
    var checked := ValidateHostname(value);
    r := if checked.Ok? then Ok(value) else Err(InvalidHostname);
  }
}
