// MQTT topic names and filters, and the topics that the reference firmware builds.
// A text is the sequence of its UTF-8 bytes, one char below 256 for each byte.
module MqttTopics {
  import opened Wrappers

  const MAX_CLIENT_ID_LEN := 64
  const MAX_TOPIC_LEN := 256

  datatype ConfigError = Empty | TooLong | InvalidHostname | InvalidClientId | InvalidTopicName | InvalidTopicFilter

  datatype FixtureError = ExceedsCapacity | TelemetryInvalid | CommandInvalid

  /* ---------- levels ---------- */

  /** The parts between the separators; there is always at least one. */
  function Split(s: string, separator: char): (parts: seq<string>)
    ensures |parts| >= 1
  {
    if s == "" then [""] else
    var rest := Split(s[1..], separator);
    if s[0] == separator then [""] + rest else [[s[0]] + rest[0]] + rest[1..]
  }

  predicate LevelAccepted(level: string, last: bool) {
    && '\0' !in level
    && ('+' in level ==> level == "+")
    && ('#' in level ==> level == "#" && last)
  }

  predicate LevelsAccepted(levels: seq<string>) {
    forall i :: 0 <= i < |levels| ==> LevelAccepted(levels[i], i + 1 == |levels|)
  }

  /* ---------- the rule of section 4.7.1 of MQTT Version 5.0 ---------- */

  predicate StartsLevel(s: string, i: int)
    requires 0 <= i < |s|
  {
    i == 0 || s[i - 1] == '/'
  }

  predicate EndsLevel(s: string, i: int)
    requires 0 <= i < |s|
  {
    i + 1 == |s| || s[i + 1] == '/'
  }

  /** A single-level wildcard fills a whole level, a multi-level wildcard fills the last one, and there is no NUL. */
  predicate WellPlaced(s: string, i: int)
    requires 0 <= i < |s|
  {
    && s[i] != '\0'
    && (s[i] == '+' ==> StartsLevel(s, i) && EndsLevel(s, i))
    && (s[i] == '#' ==> StartsLevel(s, i) && i + 1 == |s|)
  }

  predicate IsFilter(s: string) {
    forall i :: 0 <= i < |s| ==> WellPlaced(s, i)
  }

  predicate IsName(s: string) {
    '\0' !in s && '+' !in s && '#' !in s
  }

  /* ---------- the split check meets the rule ---------- */

  /** The rule for the rest of a text, whose first character starts a level only when told so. */
  predicate IsFilterRest(s: string, starts: bool) {
    IsFilter(s) && (s != "" && !starts ==> s[0] != '+' && s[0] != '#')
  }

  /** The check for the levels of such a rest. */
  predicate RestAccepted(levels: seq<string>, starts: bool)
    requires |levels| >= 1
  {
    && LevelAccepted(levels[0], |levels| == 1)
    && (!starts ==> '+' !in levels[0] && '#' !in levels[0])
    && LevelsAccepted(levels[1..])
  }

  /** Past the first character, a text and its tail agree on what is well placed. */
  lemma TailWellPlaced(s: string, i: int)
    requires 1 <= i < |s|
    ensures WellPlaced(s, i) <==>
      WellPlaced(s[1..], i - 1) && (i == 1 && s[0] != '/' ==> s[1] != '+' && s[1] != '#')
  {
    var t := s[1..];
    assert t[i - 1] == s[i];
    if i > 1 {
      assert t[i - 2] == s[i - 1];
    }
    if i + 1 < |s| {
      assert t[i] == s[i + 1];
    }
  }

  lemma FilterStep(s: string)
    requires s != ""
    ensures IsFilter(s) <==> WellPlaced(s, 0) && IsFilterRest(s[1..], s[0] == '/')
  {
    var t := s[1..];
    if IsFilter(s) {
      forall i | 0 <= i < |t|
        ensures WellPlaced(t, i)
      {
        TailWellPlaced(s, i + 1);
      }
      if t != "" {
        TailWellPlaced(s, 1);
      }
    }
    if WellPlaced(s, 0) && IsFilterRest(t, s[0] == '/') {
      forall i | 0 <= i < |s|
        ensures WellPlaced(s, i)
      {
        if i > 0 {
          TailWellPlaced(s, i);
        }
      }
    }
  }

  lemma LevelsStep(levels: seq<string>)
    requires |levels| >= 1
    ensures LevelsAccepted(levels) <==> RestAccepted(levels, true)
  {
    assert forall i :: 1 <= i < |levels| ==> levels[1..][i - 1] == levels[i];
    if LevelsAccepted(levels[1..]) {
      forall i | 1 <= i < |levels|
        ensures LevelAccepted(levels[i], i + 1 == |levels|)
      {
        assert LevelAccepted(levels[1..][i - 1], (i - 1) + 1 == |levels[1..]|);
      }
    }
  }

  /** One character and the level it extends: how accepting the longer level depends on it. */
  lemma LevelStep(c: char, level: string, last: bool)
    requires c != '/'
    ensures LevelAccepted([c] + level, last) <==>
      && c != '\0' && '\0' !in level && '+' !in level && '#' !in level
      && (c == '+' ==> level == "") && (c == '#' ==> level == "" && last)
  {
    var longer := [c] + level;
    assert longer[0] == c;
    assert forall x :: x in level ==> x in longer;
    if level != "" {
      assert |longer| >= 2;
    }
  }

  lemma {:induction false} RestAcceptedIffFilter(s: string, starts: bool)
    ensures RestAccepted(Split(s, '/'), starts) <==> IsFilterRest(s, starts)
  {
    if s != "" {
      var t := s[1..];
      RestAcceptedIffFilter(t, s[0] == '/');
      FilterStep(s);
      LevelsStep(Split(t, '/'));
      if s[0] == '/' {
        assert Split(s, '/')[1..] == Split(t, '/');
      } else {
        LevelStep(s[0], Split(t, '/')[0], |Split(t, '/')| == 1);
        assert Split(s, '/')[0] == [s[0]] + Split(t, '/')[0] && Split(s, '/')[1..] == Split(t, '/')[1..];
        FirstLevelEmpty(t);
      }
    }
  }

  lemma FirstLevelEmpty(t: string)
    ensures Split(t, '/')[0] == "" <==> t == "" || t[0] == '/'
    ensures t == "" <==> Split(t, '/') == [""]
  {
  }

  /** Checking level by level is the positional rule, for texts of any length. */
  lemma SplitCheckIsTheRule(s: string)
    ensures LevelsAccepted(Split(s, '/')) <==> IsFilter(s)
  {
    RestAcceptedIffFilter(s, true);
    LevelsStep(Split(s, '/'));
  }

  /** Names are exactly the filters without wildcards. */
  lemma NamesAreWildcardFree(s: string)
    ensures IsName(s) <==> IsFilter(s) && '+' !in s && '#' !in s
  {
    if '\0' in s {
      var i :| 0 <= i < |s| && s[i] == '\0';
      assert !WellPlaced(s, i);
    }
  }

  method ValidateTopicFilter(value: string) returns (r: Result<(), ConfigError>)
    ensures r == if IsFilter(value) then Ok(()) else Err(InvalidTopicFilter)
  {
    SplitCheckIsTheRule(value);
    var levels := Split(value, '/');
    var count := |levels|;
    for index := 0 to count
      invariant forall i :: 0 <= i < index ==> LevelAccepted(levels[i], i + 1 == count)
    {
      var level := levels[index];
      if '\0' in level || ('+' in level && level != "+") || ('#' in level && (level != "#" || index + 1 != count)) {
        return Err(InvalidTopicFilter);
      }
    }
    r := Ok(());
  }

  /* ---------- the bounded texts ---------- */

  function NewClientId(value: string): (r: Result<string, ConfigError>)
    ensures r.Ok? <==> 0 < |value| <= 64 && '\0' !in value
    ensures r.Ok? ==> r.value == value
  {
    if value == "" then Err(Empty)
    else if |value| > MAX_CLIENT_ID_LEN then Err(TooLong)
    else if '\0' in value then Err(InvalidClientId)
    else Ok(value)
  }

  function NewTopicName(value: string): (r: Result<string, ConfigError>)
    ensures r.Ok? <==> 0 < |value| <= 256 && forall c :: c in value ==> c !in "\0+#"
    ensures r.Ok? ==> r.value == value
  {
    if value == "" then Err(Empty)
    else if |value| > MAX_TOPIC_LEN then Err(TooLong)
    else if !IsName(value) then Err(InvalidTopicName)
    else Ok(value)
  }

  method NewTopicFilter(value: string) returns (r: Result<string, ConfigError>)
    ensures r.Ok? <==> 0 < |value| <= 256 && IsFilter(value)
    ensures r.Ok? ==> r.value == value
    ensures r.Err? ==> r.error == if value == "" then Empty else if |value| > 256 then TooLong else InvalidTopicFilter
  {
    if value == "" {
      return Err(Empty);
    }
    if |value| > MAX_TOPIC_LEN {
      return Err(TooLong);
    }
    var checked := ValidateTopicFilter(value);
    r := if checked.Ok? then Ok(value) else Err(InvalidTopicFilter);
  }

  /* ---------- the firmware's own topics ---------- */

  const PREFIX := "embedded-sdk/test/"

  /** Writes prefix, client id and suffix side by side into the storage, unless they do not fit. */
  method FixtureTopicText(storage: array<char>, client: string, suffix: string) returns (r: Result<string, FixtureError>)
    requires storage.Length == MAX_TOPIC_LEN
    modifies storage
    ensures r.Ok? <==> |PREFIX| + |client| + |suffix| <= MAX_TOPIC_LEN
    ensures r.Ok? ==> r.value == PREFIX + client + suffix && storage[..] == r.value + old(storage[|r.value|..])
    ensures r.Err? ==> r.error == ExceedsCapacity && storage[..] == old(storage[..])
  {
    var length := |PREFIX| + |client| + |suffix|;
    ghost var before := storage[..];
    if length > storage.Length {
      return Err(ExceedsCapacity);
    }
    CopyInto(storage, 0, PREFIX);
    assert storage[..] == PREFIX + before[|PREFIX|..];
    CopyInto(storage, |PREFIX|, client);
    assert storage[..] == PREFIX + client + before[|PREFIX| + |client|..];
    CopyInto(storage, |PREFIX| + |client|, suffix);
    assert storage[..] == PREFIX + client + suffix + before[length..];
    assert storage[..length] == PREFIX + client + suffix;
    r := Ok(storage[..length]);
  }

  method CopyInto(storage: array<char>, at: nat, text: string)
    requires at + |text| <= storage.Length
    modifies storage
    ensures storage[..] == old(storage[..at]) + text + old(storage[at + |text|..])
  {
    for i := 0 to |text|
      invariant forall k :: 0 <= k < storage.Length ==>
        storage[k] == if at <= k < at + i then text[k - at] else old(storage[k])
    {
      storage[at + i] := text[i];
    }
  }

  method DevelopmentTopics(clientId: string) returns (r: Result<(string, string), FixtureError>)
    ensures 0 < |clientId| <= 64 && '\0' !in clientId ==> (r.Ok? <==> '+' !in clientId && '#' !in clientId)
    ensures 0 < |clientId| <= 64 && '\0' !in clientId && r.Err? ==> r.error == TelemetryInvalid
    ensures r.Ok? ==> r.value == ("embedded-sdk/test/" + clientId + "/telemetry", "embedded-sdk/test/" + clientId + "/commands")
  {
    var storage := new char[MAX_TOPIC_LEN](_ => '\0');
    var telemetryText := FixtureTopicText(storage, clientId, "/telemetry");
    if telemetryText.Err? {
      return Err(telemetryText.error);
    }
    NameOfParts(clientId, "/telemetry");
    var telemetry := NewTopicName(telemetryText.value);
    if telemetry.Err? {
      return Err(TelemetryInvalid);
    }
    storage := new char[MAX_TOPIC_LEN](_ => '\0');
    var commandText := FixtureTopicText(storage, clientId, "/commands");
    if commandText.Err? {
      return Err(ExceedsCapacity);
    }
    NameOfParts(clientId, "/commands");
    NamesAreWildcardFree(commandText.value);
    var command := NewTopicFilter(commandText.value);
    if command.Err? {
      return Err(CommandInvalid);
    }
    r := Ok((telemetry.value, command.value));
  }

  lemma NameOfParts(client: string, suffix: string)
    requires IsName(suffix)
    ensures IsName(PREFIX + client + suffix) <==> IsName(client)
  {
    var text := PREFIX + client + suffix;
    assert forall c :: c in text <==> c in PREFIX || c in client || c in suffix;
  }

  /** Between the slashes of prefix and suffix, a character is well placed as it is in the id alone, but no `#` is. */
  lemma PlacedInside(client: string, suffix: string, k: nat)
    requires k < |client| && suffix != "" && suffix[0] == '/'
    ensures WellPlaced(PREFIX + client + suffix, |PREFIX| + k) <==> WellPlaced(client, k) && client[k] != '#'
  {
    var text := PREFIX + client + suffix;
    assert text[|PREFIX| + k] == client[k];
    assert text[|PREFIX| - 1] == '/' && text[|PREFIX| + |client|] == '/';
    assert k > 0 ==> text[|PREFIX| + k - 1] == client[k - 1];
    assert k + 1 < |client| ==> text[|PREFIX| + k + 1] == client[k + 1];
  }

  lemma FilterOfParts(client: string, suffix: string)
    requires IsName(suffix) && suffix != "" && suffix[0] == '/'
    ensures IsFilter(PREFIX + client + suffix) <==> IsFilter(client) && '#' !in client
  {
    var text := PREFIX + client + suffix;
    if IsFilter(text) {
      forall k | 0 <= k < |client|
        ensures WellPlaced(client, k) && client[k] != '#'
      {
        PlacedInside(client, suffix, k);
        assert WellPlaced(text, |PREFIX| + k);
      }
    }
    if IsFilter(client) && '#' !in client {
      forall i | 0 <= i < |text|
        ensures WellPlaced(text, i)
      {
        if |PREFIX| <= i < |PREFIX| + |client| {
          PlacedInside(client, suffix, i - |PREFIX|);
        } else {
          assert text[i] in PREFIX || text[i] in suffix;
        }
      }
    }
  }

  /** It is the telemetry name alone that turns a client id down exactly when `+` is in it and fills whole levels. */
  lemma OnlyNameRejectsIff(client: string)
    ensures IsFilter(PREFIX + client + "/commands") && !IsName(PREFIX + client + "/telemetry") <==>
            IsFilter(client) && '+' in client && '#' !in client
  {
    FilterOfParts(client, "/commands");
    NameOfParts(client, "/telemetry");
    NamesAreWildcardFree(client);
  }
}
