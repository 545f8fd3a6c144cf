/**
 * The event loop of moonsla.go's `main`: each incoming real-time event is
 * turned into at most one printed line, until invalid credentials end the
 * session.
 */
module Router {
  import opened Wrappers
  import opened GoStrings
  import opened Format
  import opened Filter
  import opened Timestamps

  /** The fields of a Slack message event the loop reads. */
  datatype Message = Message(
    channel: string,
    user: string,
    username: string,
    timestamp: string,
    text: string,
    attachments: seq<Attachment>)

  datatype Event =
    | MessageEvent(message: Message)
    | RTMError(error: string)
    | InvalidAuth
    | Other

  /** A printed message line: "time - channel - user: text", red when a DM. */
  datatype Line = Line(time: string, channel: string, user: string, text: string, isDm: bool)

  /** What the loop prints per event: a message line, "Error: ...", or "Invalid credentials". */
  datatype Output = Show(line: Line) | Report(error: string) | AuthFailed

  /**
   * What the loop reads besides the events: the maps fetched at start-up, the
   * two channel lists, whether MOONSLA_NO_HYPERLINKS is set, and the local
   * zone's offset from UTC in seconds.
   */
  datatype Session = Session(
    channels: map<string, string>,
    users: map<string, string>,
    dms: map<string, string>,
    whitelist: seq<string>,
    blacklist: seq<string>,
    noHyperlinks: bool,
    offset: int)

  /** The text of a message: its attachments flattened if it has any, its own text otherwise. */
  function Body(m: Message): string
  {
    if |m.attachments| > 0 then Join(Pieces(m.attachments), "\n") else m.text
  }

  /** The body with mentions and links rewritten. */
  function Formatted(m: Message, s: Session): string
  {
    Links(Mentions(Body(m), s.users), s.noHyperlinks)
  }

  /** The line printed for a message, or None when it is filtered out or blank. */
  function Render(m: Message, s: Session): (r: Option<Line>)
    ensures r.None? <==> !Filtered(m.channel, s.channels, s.whitelist, s.blacklist).0 || IsBlank(Formatted(m, s))
    ensures r.Some? ==> r.value.text == Truncated(Formatted(m, s)) && !IsBlank(r.value.text)
    ensures r.Some? ==> r.value.time == ShownTime(m.timestamp, s.offset)
    ensures r.Some? ==> (r.value.isDm <==> m.channel in s.dms)
    ensures r.Some? && m.channel in s.dms ==> r.value.channel == s.dms[m.channel]
    ensures r.Some? && m.channel !in s.dms ==> r.value.channel == Filtered(m.channel, s.channels, s.whitelist, s.blacklist).1
    ensures r.Some? && m.username != "" ==> r.value.user == m.username
    ensures r.Some? && m.username == "" && m.user in s.users ==> r.value.user == s.users[m.user]
    ensures r.Some? && m.username == "" && m.user !in s.users ==> r.value.user == m.user
  {
    var (whitelisted, name) := Filtered(m.channel, s.channels, s.whitelist, s.blacklist);
    var user := if m.username != "" then m.username else if m.user in s.users then s.users[m.user] else m.user;
    var isDm := m.channel in s.dms;
    var channel := if isDm then s.dms[m.channel] else name;
    var text := Formatted(m, s);
    TrimSpaceEmpty(text);
    if !whitelisted || TrimSpace(text) == "" then None
    else
      TruncatedNonBlank(text);
      Some(Line(ShownTime(m.timestamp, s.offset), channel, user, Truncated(text), isDm))
  }

  /** A text with something other than white space keeps it when truncated. */
  lemma TruncatedNonBlank(text: string)
    requires !IsBlank(text)
    ensures !IsBlank(Truncated(text))
  {
    var lines := Split(text, '\n');
    if |lines| > 3 {
      TruncatedLines(text);
      var r := Truncated(text);
      assert Split(r, '\n')[3] == "...";
      SplitWithin(r, '\n', 3, '.');
      var k :| 0 <= k < |r| && r[k] == '.';
    }
  }

  /** What the loop prints for one event: nothing for ignored events and dropped messages. */
  function Emit(e: Event, s: Session): (r: seq<Output>)
    ensures |r| <= 1
    ensures e.InvalidAuth? ==> r == [AuthFailed]
    ensures e.RTMError? ==> r == [Report(e.error)]
    ensures e.Other? ==> r == []
    ensures e.MessageEvent? ==> (r == [] <==> Render(e.message, s).None?)
  {
    match e
    case MessageEvent(m) => (match Render(m, s) case Some(l) => [Show(l)] case None => [])
    case RTMError(err) => [Report(err)]
    case InvalidAuth => [AuthFailed]
    case Other => []
  }

  /** What the loop prints for a whole stream of events. */
  function Route(events: seq<Event>, s: Session): seq<Output>
    decreases |events|
  {
    if events == [] then []
    else if events[0].InvalidAuth? then [AuthFailed]
    else Emit(events[0], s) + Route(events[1..], s)
  }

  /** The `*slack.MessageEvent` case of `main`'s loop, in the source's order of steps. */
  method Handle(ev: Message, s: Session) returns (line: Option<Line>)
    ensures line == Render(ev, s)
  {
    var whitelisted, cName := FilterChannel(ev.channel, s.channels, s.whitelist, s.blacklist);
    var isDm := false;
    var uName := if ev.user in s.users then s.users[ev.user] else ev.user;
    if ev.username != "" {
      uName := ev.username;
    }
    if ev.channel in s.dms {
      cName := s.dms[ev.channel];
      isDm := true;
    }
    var timeStamp := FormatTime(ev.timestamp, s.offset);
    var msg := FormatText(ev, s);
    TrimSpaceEmpty(msg);
    if !whitelisted {
      return None;
    }
    if TrimSpace(msg) == "" {
      return None;
    }
    msg := Trim(msg);
    line := Some(Line(timeStamp, cName, uName, msg, isDm));
  }

  /** The text steps of the message case: attachments, then mentions, then links. */
  method FormatText(ev: Message, s: Session) returns (msg: string)
    ensures msg == Formatted(ev, s)
  {
    var text := ev.text;
    if |ev.attachments| > 0 {
      text := FormatAttachments(ev.attachments);
    }
    msg := FormatMentions(text, s.users);
    msg := FormatUrls(msg, s.noHyperlinks);
  }

  /** `main`'s loop over the incoming events, returning at invalid credentials. */
  method Run(events: seq<Event>, s: Session) returns (out: seq<Output>)
    ensures out == Route(events, s)
  {
    out := [];
    var i := 0;
    while i < |events|
      invariant i <= |events|
      invariant out + Route(events[i..], s) == Route(events, s)
    {
      ghost var before := out;
      match events[i] {
        case MessageEvent(ev) =>
          var line := Handle(ev, s);
          if line.Some? {
            out := out + [Show(line.value)];
          }
        case RTMError(e) =>
          out := out + [Report(e)];
        case InvalidAuth =>
          out := out + [AuthFailed];
          RouteAt(events, i, s);
          return;
        case Other =>
      }
      RouteStep(events, i, s, before, out);
      i := i + 1;
    }
  }

  /** The loop at event `i`: what that event prints, then the rest unless it stops the loop. */
  lemma RouteAt(events: seq<Event>, i: nat, s: Session)
    requires i < |events|
    ensures Route(events[i..], s) ==
      if events[i].InvalidAuth? then [AuthFailed] else Emit(events[i], s) + Route(events[i + 1..], s)
  {
    assert events[i..][0] == events[i] && events[i..][1..] == events[i + 1..];
  }

  /** The loop invariant carried past an event that does not stop the loop. */
  lemma RouteStep(events: seq<Event>, i: nat, s: Session, before: seq<Output>, after: seq<Output>)
    requires i < |events| && !events[i].InvalidAuth?
    requires before + Route(events[i..], s) == Route(events, s)
    requires after == before + Emit(events[i], s)
    ensures after + Route(events[i + 1..], s) == Route(events, s)
  {
    RouteAt(events, i, s);
  }

  /** Events before the first InvalidAuth are printed independently of what follows. */
  lemma {:induction false} RouteConcat(xs: seq<Event>, ys: seq<Event>, s: Session)
    requires InvalidAuth !in xs
    ensures Route(xs + ys, s) == Route(xs, s) + Route(ys, s)
  {
    if xs != [] {
      assert (xs + ys)[0] == xs[0] && (xs + ys)[1..] == xs[1..] + ys;
      assert xs[0] in xs;
      RouteConcat(xs[1..], ys, s);
    } else {
      assert xs + ys == ys;
    }
  }

  /** Invalid credentials end the session: nothing after them is printed. */
  lemma RouteStops(before: seq<Event>, after: seq<Event>, s: Session)
    requires InvalidAuth !in before
    ensures Route(before + [InvalidAuth] + after, s) == Route(before, s) + [AuthFailed]
  {
    RouteConcat(before, [InvalidAuth] + after, s);
    assert before + [InvalidAuth] + after == before + ([InvalidAuth] + after);
  }

  /** Every event prints at most one line, and only invalid credentials stop the loop early. */
  lemma {:induction false} RouteLength(events: seq<Event>, s: Session)
    ensures |Route(events, s)| <= |events|
    ensures InvalidAuth !in events ==> |Route(events, s)| == |events| - Quiet(events, s)
    decreases |events|
  {
    if events != [] {
      RouteLength(events[1..], s);
      assert InvalidAuth !in events ==> InvalidAuth !in events[1..] by {
        assert forall k :: 0 <= k < |events[1..]| ==> events[1..][k] == events[k + 1];
      }
    }
  }

  /** How many events print nothing: dropped messages and ignored events. */
  function Quiet(events: seq<Event>, s: Session): nat
    decreases |events|
  {
    if events == [] then 0
    else (if Emit(events[0], s) == [] then 1 else 0) + Quiet(events[1..], s)
  }

  /** A channel on a real blacklist is never shown, whatever the whitelist. */
  lemma BlacklistNeverShown(m: Message, s: Session)
    requires m.channel in s.channels && s.channels[m.channel] in s.blacklist && !IsSentinel(s.blacklist)
    ensures Render(m, s).None?
  {
    BlacklistWins(s.channels[m.channel], s.whitelist, s.blacklist);
  }

  /** With attachments the message's own text is not shown. */
  lemma AttachmentsReplaceText(m: Message, text: string, s: Session)
    requires |m.attachments| > 0
    ensures Render(m, s) == Render(m.(text := text), s)
  {
  }
}
