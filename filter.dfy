/**
 * Channel filtering (`filterChannel` in moonsla.go) and the comma-separated
 * channel lists it is given, which come from SLACK_CHANNELS and
 * SLACK_BLACKLIST_CHANNELS.
 */
module Filter {
  import opened GoStrings

  /**
   * `strings.Split(strings.TrimSpace(env), ",")`: a list of channel names.
   * Only the whole value is trimmed, not each entry.
   */
  function ChannelList(env: string): (names: seq<string>)
    ensures |names| >= 1
  {
    Split(TrimSpace(env), ',')
  }

  /** The single empty name: all channels for a whitelist, none for a blacklist. */
  predicate IsSentinel(names: seq<string>)
  {
    |names| == 1 && names[0] == ""
  }

  /** An unset or blank variable, and only such a one, gives the sentinel. */
  lemma ChannelListSentinel(env: string)
    ensures IsSentinel(ChannelList(env)) <==> IsBlank(env)
  {
    SplitSentinel(TrimSpace(env), ',');
    TrimSpaceEmpty(env);
    assert IsSentinel(ChannelList(env)) <==> ChannelList(env) == [""];
  }

  /** Joining the list with commas gives back the trimmed variable. */
  lemma ChannelListJoin(env: string)
    ensures Join(ChannelList(env), ",") == TrimSpace(env)
  {
    JoinSplit(TrimSpace(env), ',');
  }

  /** A name written after ", " keeps its leading space: "a, b" lists "a" and " b". */
  lemma ChannelListUntrimmed(a: string, b: string)
    requires a != [] && !IsSpace(a[0]) && b != [] && !IsSpace(b[|b| - 1])
    requires ',' !in a && ',' !in b
    ensures ChannelList(a + ", " + b) == [a, " " + b]
  {
    var rest := " " + b;
    var s := a + [','] + rest;
    assert s == a + ", " + b;
    assert !IsSpace(s[0]) && !IsSpace(s[|s| - 1]);
    TrimSpaceTrimmed(s);
    IndexAfter(a, ',', rest);
    assert s[..|a|] == a && s[|a| + 1..] == rest;
    assert ',' !in rest;
    IndexAbsent(rest, ',');
    assert Split(rest, ',') == [rest];
    assert Split(s, ',') == [a] + Split(rest, ',');
  }

  /** Whether a known channel's messages are shown. */
  predicate Included(name: string, whitelist: seq<string>, blacklist: seq<string>)
  {
    (IsSentinel(whitelist) || name in whitelist) && !(name in blacklist && !IsSentinel(blacklist))
  }

  /**
   * `filterChannel`: whether messages of channel `id` are shown, and the
   * channel's name (the id itself when the channel is unknown).
   */
  method FilterChannel(id: string, channels: map<string, string>, whitelist: seq<string>, blacklist: seq<string>)
    returns (whitelisted: bool, cName: string)
    ensures id !in channels ==> whitelisted && cName == id
    ensures id in channels ==> cName == channels[id] && (whitelisted <==> Included(cName, whitelist, blacklist))
  {
    whitelisted := false;
    var blacklisted := false;
    if id in channels {
      cName := channels[id];
      for i := 0 to |whitelist|
        invariant whitelisted <==> cName in whitelist[..i]
      {
        if cName == whitelist[i] {
          whitelisted := true;
        }
        assert whitelist[..i + 1] == whitelist[..i] + [whitelist[i]];
      }
      for i := 0 to |blacklist|
        invariant blacklisted <==> cName in blacklist[..i]
      {
        if cName == blacklist[i] {
          blacklisted := true;
        }
        assert blacklist[..i + 1] == blacklist[..i] + [blacklist[i]];
      }
      assert whitelist[..|whitelist|] == whitelist && blacklist[..|blacklist|] == blacklist;
    } else {
      whitelisted := true;
      cName := id;
    }
    if |whitelist| == 1 && whitelist[0] == "" {
      whitelisted := true;
    }
    if |blacklist| == 1 && blacklist[0] == "" {
      blacklisted := false;
    }
    if blacklisted {
      return false, cName;
    }
  }

  /** `filterChannel` as a function, for the event loop's specification. */
  function Filtered(id: string, channels: map<string, string>, whitelist: seq<string>, blacklist: seq<string>)
    : (r: (bool, string))
    ensures id !in channels ==> r == (true, id)
    ensures id in channels ==> r == (Included(channels[id], whitelist, blacklist), channels[id])
  {
    if id in channels then (Included(channels[id], whitelist, blacklist), channels[id]) else (true, id)
  }

  /** A blacklisted name is never shown, whatever the whitelist says. */
  lemma BlacklistWins(name: string, whitelist: seq<string>, blacklist: seq<string>)
    requires name in blacklist && !IsSentinel(blacklist)
    ensures !Included(name, whitelist, blacklist)
  {
  }

  /** With both lists unset every channel is shown. */
  lemma SentinelsShowAll(name: string, env1: string, env2: string)
    requires IsBlank(env1) && IsBlank(env2)
    ensures Included(name, ChannelList(env1), ChannelList(env2))
  {
    ChannelListSentinel(env1);
    ChannelListSentinel(env2);
  }

  /**
   * The source's three filter tests, with the blacklist unset: a whitelisted
   * channel is shown, another known one is not, an unknown one is shown under
   * its id.
   */
  method FilterExamples()
  {
    var channels := map["12345" := "channel-name", "12344" := "spam-channel"];
    var w1, n1 := FilterChannel("12345", map["12345" := "channel-name"], ["channel-name"], [""]);
    assert w1 && n1 == "channel-name";
    var w2, n2 := FilterChannel("12344", channels, ["channel-name"], [""]);
    assert !w2 && n2 == "spam-channel";
    var w3, n3 := FilterChannel("123", channels, ["channel-name"], [""]);
    assert w3 && n3 == "123";
  }
}
