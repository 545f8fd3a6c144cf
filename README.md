# moonsla, modelled in Dafny

moonsla is a terminal client for Slack: it loads the workspace's channels,
users and direct-message channels, and then prints one line per incoming
real-time message: "time - channel - user: text". This project models the
part of `moonsla.go` that decides what that line is, and proves properties
of it:

- **Channel filtering** (`filterChannel`), over a channel whitelist and a
  channel blacklist. Each list is read from an environment variable and
  split on `,`; the single-element list `[""]` means "all channels" for the
  whitelist and "no channels" for the blacklist.
- **Mention and link rewriting** (`formatMentions`, `formatUrls`). The
  regular expressions `<@U.*?>` and `<http.*?>` are modelled as a scanner
  (module `Scanner`): leftmost, non-overlapping, shortest matches, and a
  match never spans a newline.
  - The source loop replaces *every occurrence* of each match, one match
    after another, on the evolving message. It is modelled as written
    (`Rewrite.Rewritten`).
  - The theorem `Rewrite.RewrittenIsSubstituted` proves when that loop
    equals a single left-to-right pass (`Rewrite.Substituted`). Two
    conditions are needed: every `<` in the message is closed by a `>`
    before the next `<`, and no user name contains a `<`.
  - `RewriteLimits` gives one message for each condition on which the
    loop and the single pass differ.
- **Attachment flattening and truncation** (`formatAttachments`, `minInt`,
  `takeN`, `trim`).
- **Timestamps** (`getTimeStamp` and the `HH:MM:SS` printing). This
  includes Go's `strconv.ParseInt(s, 10, 64)`, modelled with its
  syntax/range error order.
  - The time zone is a fixed offset in seconds, and the time of day is
    `(seconds + offset) mod 86400`.
- **The event loop of `main`** (module `Router`). Each message event
  becomes at most one line, and invalid credentials end the loop. A
  transport error is printed as "Error: …" and the loop goes on
  (moonsla.go:265-266), so the model emits a `Report` for it rather than
  nothing.
- **Building the lookup maps** from the listings fetched at start-up
  (`getChannels`, `getUsers`, `getDMs`, module `Directory`). The fetching
  itself is not modelled.

Go strings are modelled as `seq<char>`. Go's library functions the core
relies on are modelled in `GoStrings`: `strings.Split` with a one-character
separator, `strings.Join`, `strings.Replace(s, old, new, -1)` and
`strings.TrimSpace`. Where the source loops, the model has a method with the
same loop, proved against a function; the properties are lemmas about those
functions.

## Model

| member | source | states |
|---|---|---|
| Filter.FilterChannel | moonsla.go:123-156 | An unknown channel id gives `(true, id)`. A known id gives its name, and it is whitelisted exactly when the whitelist is `[""]` or holds the name, unless a blacklist other than `[""]` holds the name. |
| Filter.BlacklistWins | moonsla.go:134-138 | A name on a real blacklist is excluded whatever the whitelist says. |
| Filter.ChannelList | moonsla.go:203 | Splitting the trimmed variable on `,` always gives at least one entry. |
| Filter.ChannelListSentinel | moonsla.go:203 | The list is the sentinel `[""]` exactly when the variable is empty or white space. |
| Filter.ChannelListJoin | moonsla.go:206 | Joining the list with `,` gives back the trimmed variable, so no entry is lost or altered. |
| Filter.ChannelListUntrimmed | moonsla.go:203 | Entries are not trimmed one by one: `"a, b"` gives `["a", " b"]`. |
| Filter.SentinelsShowAll | moonsla.go:144-150 | With both variables blank, every channel is included. |
| Format.FormatMentions | moonsla.go:69-81 | The loop computes `Mentions`, the fold of replace-alls over the matches. On a bracketed message with `<`-free names it equals the single pass. |
| Format.MentionFreeUnchanged | moonsla.go:69-81 | A message with no `<@U` anywhere is returned unchanged. |
| Format.NoPrefixNoMatch | moonsla.go:70-71 | Without the prefix anywhere, the scanner finds no match. |
| Format.UnknownMentionsUnchanged | moonsla.go:73-78 | If no match names a known user, the message is returned unchanged. |
| Format.RewrittenKept | moonsla.go:75-78 | Matches with no replacement leave the message as it was. |
| Format.OneMention | moonsla.go:69-81 | With `<`-free user names, in `<`-free text around a single `<@ID>` for an id that starts with `U` and has no `<`, `>` or newline, the mention becomes `@name` when ID is a known user and stays as it is otherwise. |
| Format.MentionShown | moonsla.go:73-77 | For an id that starts with `U` and has no `<`, `>` or newline, `<@ID>` is a match, and its replacement is `@` followed by the user's name, or it stays `<@ID>` for an unknown id. |
| Format.MentionToken | moonsla.go:70-73 | For an id that starts with `U` and has no `<`, `>` or newline, `<@ID>` is a match of `<@U.*?>`, and `m[2:len(m)-1]` is ID. |
| Format.WeaveApplied | moonsla.go:69-81 | With `<`-free user names, `<`-free text interleaved with bracketed matches: every match is replaced by what it shows, and the text is kept. |
| Format.WeaveSubstituted | moonsla.go:69-81 | The single pass on such a weave replaces each match in place. |
| Format.WeaveBracketed | moonsla.go:70 | Such a weave satisfies the bracket condition. |
| Format.TwoMentionsWoven | moonsla.go:69-81 | With `<`-free user names and between `<`-free text, two known users, with distinct ids that start with `U` and have no `<`, `>` or newline, mentioned three times, with one of them mentioned twice, are all replaced. |
| Format.OneMatch | moonsla.go:72-79 | With no user name containing `<`, in `<`-free text around one bracketed match, the loop replaces exactly that match. |
| Format.SubstitutedCopies | moonsla.go:70 | Text without `<` passes through the single pass unchanged. |
| Format.SubstitutedToken | moonsla.go:70 | A match at the front is shown replaced, and the rest is processed on. |
| Format.BracketConcat | moonsla.go:70 | A bracket followed by a bracketed text is bracketed. |
| Format.MentionExample | moonsla_test.go:98-105 | "hello <@U1234> how are you?" with U1234 = crazybus gives "hello @crazybus how are you?". |
| Format.ManyMentionsExample | moonsla_test.go:106-114 | The message with three mentions of two users gives the expected text. |
| Format.NoMentionExample | moonsla_test.go:115-123 | "hi" is unchanged. |
| Format.UnknownMentionExample | moonsla_test.go:124-132 | "hi <@U999>!" with U999 unknown is unchanged. |
| Format.FormatUrls | moonsla.go:83-105 | With hyperlinks disabled, the message is returned unchanged. Otherwise it is the fold of replace-alls over the `<http…>` matches, which on a bracketed message equals the single pass. |
| Format.LinkPieces | moonsla.go:94-101 | A match whose inside is two or more pieces joined by the pipe character, none containing it, becomes the OSC 8 hyperlink to the first piece, titled by the last. |
| Format.BareLink | moonsla.go:95-98 | A match without a pipe character has no replacement. |
| Format.LinkToken | moonsla.go:91-101 | A url starting "http" and a title, with no pipe character, `<`, `>` or newline in either, joined by a pipe character inside angle brackets, form a match of `<http.*?>` that becomes the hyperlink from url to title. |
| Format.OneLink | moonsla.go:83-105 | In `<`-free text around one url-and-title link in angle brackets, with no pipe character, `<`, `>` or newline in the url or title, the link is replaced by the hyperlink and everything else is kept. |
| Format.FormatAttachments | moonsla.go:107-121 | The result is the pieces joined with newlines, in attachment order. Each piece is `title: text`, or just `text` for an untitled attachment. |
| Format.FlattenedLines | moonsla.go:107-121 | For one or more attachments without newlines inside them, splitting the result on newlines gives back the pieces. |
| Format.FlattenExample | moonsla.go:113-120 | An untitled "a" and a titled "t"/"b" give "a\nt: b". |
| Format.MinInt | moonsla.go:158-163 | The result is the smaller of the two. |
| Format.TakeN | moonsla.go:165-167 | The result is the first `min(n, number of lines)` lines: a prefix of the lines of exactly that length. |
| Format.Trim | moonsla.go:169-176 | The method computes `Truncated`: a text of at most three lines is returned as it is. |
| Format.TruncatedLines | moonsla.go:170-175 | A longer text is cut to exactly its first three lines followed by the line "...". |
| Format.TruncatedIdempotent | moonsla.go:169-176 | Truncating twice is truncating once. |
| Rewrite.RewrittenIsSubstituted | moonsla.go:69-105 | On a bracketed message, with no user name containing `<`, the replace-all loop equals the single left-to-right pass, which replaces each match in place. |
| Rewrite.StepsDone | moonsla.go:72-79 | In a bracketed message, and with no user name containing `<`, after the loop has handled a set of bracketed matches, the message is the single pass with exactly those matches replaced. |
| Rewrite.StepDone | moonsla.go:77 | In a bracketed message, and with no user name containing `<`, the replace-all of one bracketed match adds that match to the replaced set. |
| Rewrite.OtherBracket | moonsla.go:77 | A replace-all of one bracket passes over a different bracket. |
| Rewrite.ReplacementOpenFree | moonsla.go:76-77 | For allowed names, the replacement text of a bracket contains no `<`. |
| Rewrite.SubstitutedForAll | moonsla.go:71-72 | Once every match is in the replaced set, the single pass is reached. |
| RewriteLimits.Unbracketed | moonsla.go:69-81 | On "<@U1><@U<@U1>" the loop also rewrites the copy of "<@U1>" inside the unknown second match, while the single pass does not. |
| RewriteLimits.NameHoldsMention | moonsla.go:69-81 | When U1's name is "<@U2>", the loop rewrites the inserted name again, while the single pass does not. |
| Scanner.FindAll | moonsla.go:71 | Every match found is a token: the prefix, then a run without `>` or newline, then `>`. |
| Scanner.TokenAt | moonsla.go:70 | A match at the front is the shortest token there. |
| Scanner.TokenFront | moonsla.go:70 | A token at the front is matched whole. |
| Scanner.FindAllAfter | moonsla.go:71 | For a prefix starting with `<`: after text without `<`, the next match found is the whole token that follows, and scanning goes on after it; no match is missed or invented. |
| Scanner.TokenOneLine | moonsla.go:70 | For a prefix without a newline, a match never spans a newline. |
| Scanner.FindAllNone | moonsla.go:71 | Without the prefix's first character there are no matches. |
| Scanner.FindAllBrackets | moonsla.go:71 | For a prefix that starts with `<` and has no `>`, every match in a bracketed message is a bracket. |
| GoStrings.Split | moonsla.go:170 | Split always gives at least one piece, and no piece contains the separator. |
| GoStrings.JoinSplit | moonsla.go:170-175 | Joining the split pieces with the separator gives back the text. |
| GoStrings.SplitJoin | moonsla.go:94 | For one or more pieces without the separator, splitting their join gives them back. |
| GoStrings.SplitSentinel | moonsla.go:203 | Split gives `[""]` exactly for the empty string. |
| GoStrings.ReplaceAllSkips | moonsla.go:77 | A stretch without the target's first character is copied unchanged by the replace-all. |
| GoStrings.TrimSpaceEmpty | moonsla.go:253 | TrimSpace gives "" exactly for a text made only of white space. |
| GoStrings.TrimSpaceIdempotent | moonsla.go:203 | Trimming twice is trimming once. |
| GoStrings.TrimLeft | moonsla.go:203 | Only leading white space is dropped, and the result does not start with white space. |
| GoStrings.TrimRight | moonsla.go:203 | Only trailing white space is dropped, and the result does not end with white space. |
| Timestamps.ParseUintMeaning | moonsla.go:61 | The unsigned parse succeeds exactly on a non-empty digit string whose value fits in 64 bits, and it returns that value. |
| Timestamps.ParseIntMeaning | moonsla.go:61 | `ParseInt(s, 10, 64)` succeeds exactly on an optional sign followed by digits whose value fits in int64, and it returns that value. |
| Timestamps.AccumulateOk | moonsla.go:61 | Go's digit loop yields the decimal value when that value fits. |
| Timestamps.AccumulateErr | moonsla.go:61 | Go's digit loop fails on a non-digit or on overflow. |
| Timestamps.ParseDecimal | moonsla.go:61 | Every int64 printed in decimal parses back to itself. |
| Timestamps.Digits | moonsla.go:61 | The decimal printer that `ParseInt` inverts: a number is printed as a non-empty digit string that reads back as the number. |
| Timestamps.StampMeaning | moonsla.go:60-67 | The stamp has no error exactly when the text before the first `.` is a signed decimal in int64 range, and then the time is that value. |
| Timestamps.StampPrefix | moonsla.go:61 | Only the text before the first `.` matters. |
| Timestamps.StampOfDecimal | moonsla.go:60-67 | An int64 in decimal followed by any fraction gives that number of seconds and no error. |
| Timestamps.StampMalformed | moonsla.go:234-238 | A timestamp whose seconds are not a decimal number is shown as "00:00:00". |
| Timestamps.ShownTimeFields | moonsla.go:234-238 | For a timestamp that parses, the shown time is `HH:MM:SS` with each field in range. The fields give back the parsed seconds plus the offset, modulo one day. |
| Timestamps.FormatTime | moonsla.go:234-238 | These steps compute `ShownTime`: "00:00:00" when parsing fails, and otherwise the clock of the seconds plus the offset. |
| Timestamps.Pad2 | moonsla.go:237 | `%02d` of a number below 100 is two digits that read back as the number. |
| Timestamps.ClockFields | moonsla.go:237 | The clock is eight characters `HH:MM:SS`. Each field is a number in range, and together they give back the second of the day. |
| Timestamps.ClockDaily | moonsla.go:237 | The clock repeats every 86400 seconds. |
| Timestamps.StampExample | moonsla_test.go:13-14 | "1530593277.000080" is 04:47:57 in UTC and 06:47:57 two hours ahead, which is what the test expects. |
| Directory.Index | moonsla.go:30-32 | The loop builds `Indexed`, the map of id to name in which a later entry replaces an earlier one. |
| Directory.IndexedMeaning | moonsla.go:54-56 | An id is in the map exactly when some entry has it, and its name is that of the last such entry. |
| Directory.IndexDMs | moonsla.go:42-49 | A DM channel maps to its peer's name, or "" for an unknown peer. A later channel replaces an earlier one with the same id. |
| Router.Render | moonsla.go:213-263 | A message is dropped exactly when it is not whitelisted or its formatted text is white space. Otherwise all of the following hold. The text is truncated and not blank. The time is `ShownTime`. A DM channel's peer name replaces the channel name and marks the line as a DM. A non-empty Username overrides the user's name, and an unknown user shows as its id. |
| Router.Handle | moonsla.go:213-263 | The message case, step by step in the source's order, computes `Render`. |
| Router.FormatText | moonsla.go:240-248 | Attachments replace the text, then mentions and links are rewritten, giving `Formatted`. |
| Router.AttachmentsReplaceText | moonsla.go:240-244 | A message with attachments renders the same whatever its own text. |
| Router.BlacklistNeverShown | moonsla.go:215 | A known channel on a real blacklist is never shown. |
| Router.TruncatedNonBlank | moonsla.go:253-256 | A text that is not blank stays non-blank when truncated. |
| Router.Run | moonsla.go:209-276 | The loop prints `Route` of the events. |
| Router.RouteStops | moonsla.go:268-270 | Invalid credentials end the session: nothing after them is printed. |
| Router.RouteConcat | moonsla.go:209-276 | Before invalid credentials, events are printed independently of what follows. |
| Router.RouteLength | moonsla.go:209-276 | There is at most one output per event. Without invalid credentials, there is exactly one per event minus the quiet ones. |

## Left out

- The fetching in `getChannels`, `getUsers` and `getDMs` (moonsla.go:16-58) is Slack API network I/O. This includes the cursor pagination and the `panic` on error. Only building the maps from a list of (id, name) entries is modelled.
- The real-time connection and its goroutine (moonsla.go:200-201) are concurrency and transport. The model takes the stream of events as a sequence.
- Reading the token and the environment (moonsla.go:180-183, 87, 203, 206) is I/O. The values become parameters: the whitelist and blacklist strings, and `noHyperlinks` for MOONSLA_NO_HYPERLINKS being non-empty.
- The logger, the start-up banners and the text of the printed line are left out. Each printed line is modelled as a record (time, channel, user, text, isDm).
- `aurora` colouring (moonsla.go:258-263) is a foreign library. Only the isDm flag that picks the colour is kept.
- Go's regular expression engine is modelled as an explicit scanner for the two patterns the source uses.
- The time-zone database behind `time.Unix` and `t.Hour()` is replaced by a fixed UTC offset in seconds. Daylight-saving changes are not modelled.
- Timestamps.ShownTimeFields: for seconds near the int64 limits, Go's `time.Unix` adds an internal 64-bit offset that can wrap around. The model uses unbounded arithmetic.
- Strings are sequences of characters. Go's UTF-8 byte indexing (`m[2:len(m)-1]`) agrees with this for the ASCII delimiters involved, and invalid UTF-8 is not modelled.
- The test file's own calls to `formatTimeStamp` and to three-argument `filterChannel` do not match the source, so its cases appear here only as example lemmas and asserts. `Filter.FilterExamples` passes the blacklist `[""]` in those calls.
