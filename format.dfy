/**
 * The text formatter of moonsla.go: mention substitution (`formatMentions`),
 * hyperlink rendering (`formatUrls`), attachment flattening
 * (`formatAttachments`) and truncation to three lines (`minInt`, `takeN`,
 * `trim`). Each method follows the source's statements and is proved
 * against a function that the lemmas below characterise.
 */
module Format {
  import opened Wrappers
  import opened GoStrings
  import opened Scanner
  import opened Rewrite

  /** `formatMentions` as a function of its inputs. */
  function Mentions(msg: string, users: map<string, string>): string
  {
    Apply(msg, MentionRule(users))
  }

  /** `formatUrls` as a function; `disabled` stands for MOONSLA_NO_HYPERLINKS being set. */
  function Links(msg: string, disabled: bool): string
  {
    if disabled then msg else Apply(msg, LinkRule)
  }

  /**
   * `formatMentions`: every match of `<@U.*?>` whose inside is a known user ID is
   * replaced, everywhere in the evolving message, by "@" and the user's name.
   */
  method FormatMentions(msg: string, users: map<string, string>) returns (out: string)
    ensures out == Mentions(msg, users)
    ensures Bracketed(msg) && Safe(MentionRule(users)) ==> out == Substituted(msg, MentionRule(users))
  {
    ghost var rule := MentionRule(users);
    var matches := FindAll(msg, MentionPrefix);
    out := msg;
    for i := 0 to |matches|
      invariant Rewritten(out, matches[i..], rule) == Mentions(msg, users)
    {
      var m := matches[i];
      RewrittenAt(out, matches, i, rule);
      var userID := m[2..|m| - 1];
      if userID in users {
        var username := "@" + users[userID];
        out := ReplaceAll(out, m, username);
      }
    }
    if Bracketed(msg) && Safe(rule) {
      RewrittenIsSubstituted(msg, rule);
    }
  }

  /**
   * `formatUrls`: unless disabled, every match of `<http.*?>` whose inside has a
   * '|' is replaced, everywhere in the evolving message, by the terminal
   * hyperlink to its first '|'-piece titled by its last.
   */
  method FormatUrls(msg: string, disabled: bool) returns (out: string)
    ensures out == Links(msg, disabled)
    ensures disabled ==> out == msg
    ensures !disabled && Bracketed(msg) ==> out == Substituted(msg, LinkRule)
  {
    if disabled {
      return msg;
    }
    ghost var rule := LinkRule;
    var matches := FindAll(msg, LinkPrefix);
    out := msg;
    for i := 0 to |matches|
      invariant Rewritten(out, matches[i..], rule) == Links(msg, disabled)
    {
      var m := matches[i];
      RewrittenAt(out, matches, i, rule);
      var split := Split(m[1..|m| - 1], '|');
      if |split| == 1 {
        assert Replacement(LinkRule, m) == None;
        continue;
      }
      var url := split[0..|split| - 1][0];
      var title := split[|split| - 1];
      var formatted := Hyperlink(url, title);
      assert Replacement(LinkRule, m) == Some(formatted);
      out := ReplaceAll(out, m, formatted);
    }
    if Bracketed(msg) {
      RewrittenIsSubstituted(msg, rule);
    }
  }

  /** The source's loop at its `i`-th match: one step, then the rest. */
  lemma RewrittenAt(msg: string, toks: seq<string>, i: nat, rule: Rule)
    requires AllTokens(toks, rule) && i < |toks|
    ensures Rewritten(msg, toks[i..], rule) == Rewritten(Step(msg, toks[i], rule), toks[i + 1..], rule)
  {
    assert toks[i..][1..] == toks[i + 1..];
  }

  /** Steps whose matches all lack a replacement change nothing. */
  lemma {:induction false} RewrittenKept(msg: string, toks: seq<string>, rule: Rule)
    requires AllTokens(toks, rule)
    requires forall k :: 0 <= k < |toks| ==> Replacement(rule, toks[k]).None?
    ensures Rewritten(msg, toks, rule) == msg
    decreases |toks|
  {
    if toks != [] {
      RewrittenKept(msg, toks[1..], rule);
    }
  }

  /** A message in which "<@U" never occurs is returned unchanged. */
  lemma {:induction false} MentionFreeUnchanged(msg: string, users: map<string, string>)
    requires forall k :: 0 <= k < |msg| ==> !(MentionPrefix <= msg[k..])
    ensures Mentions(msg, users) == msg
  {
    NoPrefixNoMatch(msg, MentionPrefix);
  }

  /** Where the prefix never occurs, nothing matches. */
  lemma {:induction false} NoPrefixNoMatch(s: string, prefix: string)
    requires forall k :: 0 <= k < |s| ==> !(prefix <= s[k..])
    ensures FindAll(s, prefix) == []
    decreases |s|
  {
    if s != [] {
      assert s[0..] == s;
      assert TokenAt(s, prefix).None?;
      forall k | 0 <= k < |s[1..]| ensures !(prefix <= s[1..][k..]) {
        assert s[1..][k..] == s[k + 1..];
      }
      NoPrefixNoMatch(s[1..], prefix);
    }
  }

  /** A message whose every mention names an unknown user is returned byte for byte. */
  lemma UnknownMentionsUnchanged(msg: string, users: map<string, string>)
    requires forall t :: t in FindAll(msg, MentionPrefix) ==> t[2..|t| - 1] !in users
    ensures Mentions(msg, users) == msg
  {
    var toks := FindAll(msg, MentionPrefix);
    forall k | 0 <= k < |toks| ensures Replacement(MentionRule(users), toks[k]).None? {
      assert toks[k] in toks;
    }
    RewrittenKept(msg, toks, MentionRule(users));
  }

  /** The single pass copies a stretch without '<'. */
  lemma {:induction false} SubstitutedCopies(x: string, y: string, rule: Rule)
    requires '<' !in x
    ensures Substituted(x + y, rule) == x + Substituted(y, rule)
  {
    if x != [] {
      var s := x + y;
      var p := Prefix(rule);
      if |p| <= |s| {
        assert s[..|p|][0] == x[0];
      }
      assert TokenAt(s, p).None?;
      assert s[1..] == x[1..] + y;
      SubstitutedCopies(x[1..], y, rule);
      assert x == [x[0]] + x[1..];
    } else {
      assert x + y == y;
    }
  }

  /** The single pass shows a match at the front as its replacement, if any. */
  lemma SubstitutedToken(t: string, y: string, rule: Rule)
    requires IsToken(t, Prefix(rule))
    ensures Substituted(t + y, rule) == Shown(t, rule) + Substituted(y, rule)
  {
    TokenFront(t, Prefix(rule), y);
    assert (t + y)[..|t|] == t && (t + y)[|t|..] == y;
  }

  lemma {:induction false} BracketedPlain(x: string)
    requires '<' !in x
    ensures Bracketed(x)
  {
    if x != [] {
      assert x[0] in x;
      BracketedPlain(x[1..]);
    }
  }

  lemma {:induction false} BracketedPlainConcat(x: string, y: string)
    requires '<' !in x && Bracketed(y)
    ensures Bracketed(x + y)
  {
    if x != [] {
      assert x[0] in x;
      assert (x + y)[1..] == x[1..] + y;
      BracketedPlainConcat(x[1..], y);
    } else {
      assert x + y == y;
    }
  }

  lemma {:induction false} ClosesPlain(x: string, y: string)
    requires '<' !in x && y != [] && y[0] == '>'
    ensures Closes(x + y)
  {
    if x != [] {
      assert x[0] in x;
      assert (x + y)[1..] == x[1..] + y;
      ClosesPlain(x[1..], y);
    } else {
      assert x + y == y;
    }
  }

  lemma BracketConcat(t: string, y: string)
    requires Bracket(t) && Bracketed(y)
    ensures Bracketed(t + y)
  {
    var inner := t[1..|t| - 1];
    assert t[1..] == inner + ">";
    assert '<' !in inner;
    BracketedPlainConcat(">", y);
    BracketedPlainConcat(inner, ">" + y);
    ClosesPlain(inner, ">" + y);
    assert t + y == [t[0]] + (inner + (">" + y));
  }

  /** A message with one match, copied text around it, shows that match as its replacement. */
  lemma OneMatch(a: string, t: string, b: string, rule: Rule)
    requires '<' !in a && '<' !in b && IsToken(t, Prefix(rule)) && Bracket(t) && Safe(rule)
    ensures Apply(a + t + b, rule) == a + Shown(t, rule) + b
  {
    var s := a + (t + b);
    assert a + t + b == s;
    OneMatchBracketed(a, t, b);
    RewrittenIsSubstituted(s, rule);
    OneMatchSubstituted(a, t, b, rule);
  }

  lemma OneMatchBracketed(a: string, t: string, b: string)
    requires '<' !in a && '<' !in b && Bracket(t)
    ensures Bracketed(a + (t + b))
  {
    BracketedPlain(b);
    BracketConcat(t, b);
    BracketedPlainConcat(a, t + b);
  }

  lemma OneMatchSubstituted(a: string, t: string, b: string, rule: Rule)
    requires '<' !in a && '<' !in b && IsToken(t, Prefix(rule))
    ensures Substituted(a + (t + b), rule) == a + Shown(t, rule) + b
  {
    SubstitutedCopies(a, t + b, rule);
    SubstitutedToken(t, b, rule);
    SubstitutedCopies(b, [], rule);
    assert b + [] == b;
  }

  /**
   * A message with one mention of `id`, '<'-free text around it: the mention
   * becomes "@" and the name when `id` is known, and stays as it is otherwise.
   */
  lemma OneMention(a: string, id: string, b: string, users: map<string, string>)
    requires '<' !in a && '<' !in b && Safe(MentionRule(users))
    requires |id| >= 1 && id[0] == 'U' && '>' !in id && '\n' !in id && '<' !in id
    ensures var t := "<@" + id + ">";
      Mentions(a + t + b, users) == a + (if id in users then "@" + users[id] else t) + b
  {
    MentionToken(id);
    OneMatch(a, "<@" + id + ">", b, MentionRule(users));
  }

  lemma MentionToken(id: string)
    requires |id| >= 1 && id[0] == 'U' && '>' !in id && '\n' !in id && '<' !in id
    ensures IsToken("<@" + id + ">", MentionPrefix) && Bracket("<@" + id + ">")
    ensures ("<@" + id + ">")[2..|id| + 2] == id
  {
    var t := "<@" + id + ">";
    assert t[..3] == MentionPrefix && t[3..|t| - 1] == id[1..];
    assert t[1..] == "@" + id + ">";
    assert t[..|t| - 1] == "<@" + id;
  }

  lemma SafeSingleton(id: string, name: string)
    requires '<' !in name
    ensures Safe(MentionRule(map[id := name]))
  {
  }

  /**
   * The source's first test: "hello <@U1234> how are you?" with U1234 named
   * crazybus becomes "hello @crazybus how are you?".
   */
  lemma MentionExample()
    ensures Mentions("hello " + "<@U1234>" + " how are you?", map["U1234" := "crazybus"])
         == "hello " + "@crazybus" + " how are you?"
  {
    SafeSingleton("U1234", "crazybus");
    OneMention("hello ", "U1234", " how are you?", map["U1234" := "crazybus"]);
    assert "<@" + "U1234" + ">" == "<@U1234>";
    assert "@" + "crazybus" == "@crazybus";
  }

  /** The source's last test: a mention of an unknown user is left as it is. */
  lemma UnknownMentionExample()
    ensures Mentions("hi " + "<@U999>" + "!", map["U1234" := "crazybus", "U321" := "notcrazybus"])
         == "hi " + "<@U999>" + "!"
  {
    var users := map["U1234" := "crazybus", "U321" := "notcrazybus"];
    assert '<' !in users["U1234"] && '<' !in users["U321"];
    assert "U999" !in users;
    OneMention("hi ", "U999", "!", users);
    assert "<@" + "U999" + ">" == "<@U999>";
  }

  /** Text pieces with matches between them: texts[0] + toks[0] + texts[1] + ... + texts[|toks|]. */
  function Weave(texts: seq<string>, toks: seq<string>): string
    requires |texts| == |toks| + 1
    decreases |toks|
  {
    if toks == [] then texts[0] else texts[0] + (toks[0] + Weave(texts[1..], toks[1..]))
  }

  /** Each match as the single pass shows it. */
  function ShownAll(toks: seq<string>, rule: Rule): (r: seq<string>)
    requires AllTokens(toks, rule)
    ensures |r| == |toks| && forall k :: 0 <= k < |toks| ==> r[k] == Shown(toks[k], rule)
  {
    seq(|toks|, k requires 0 <= k < |toks| => Shown(toks[k], rule))
  }

  /** '<'-free text around bracket-shaped matches is bracketed. */
  lemma {:induction false} WeaveBracketed(texts: seq<string>, toks: seq<string>)
    requires |texts| == |toks| + 1
    requires forall k :: 0 <= k < |texts| ==> '<' !in texts[k]
    requires forall k :: 0 <= k < |toks| ==> Bracket(toks[k])
    ensures Bracketed(Weave(texts, toks))
    decreases |toks|
  {
    if toks == [] {
      BracketedPlain(texts[0]);
    } else {
      var rest := Weave(texts[1..], toks[1..]);
      WeaveBracketed(texts[1..], toks[1..]);
      BracketConcat(toks[0], rest);
      BracketedPlainConcat(texts[0], toks[0] + rest);
    }
  }

  /** The single pass over a weave shows every match and copies every text piece. */
  lemma {:induction false} WeaveSubstituted(texts: seq<string>, toks: seq<string>, rule: Rule)
    requires |texts| == |toks| + 1
    requires forall k :: 0 <= k < |texts| ==> '<' !in texts[k]
    requires AllTokens(toks, rule)
    ensures Substituted(Weave(texts, toks), rule) == Weave(texts, ShownAll(toks, rule))
    decreases |toks|
  {
    if toks == [] {
      SubstitutedCopies(texts[0], [], rule);
      assert texts[0] + [] == texts[0];
    } else {
      var rest := Weave(texts[1..], toks[1..]);
      WeaveSubstituted(texts[1..], toks[1..], rule);
      SubstitutedCopies(texts[0], toks[0] + rest, rule);
      SubstitutedToken(toks[0], rest, rule);
      assert ShownAll(toks, rule)[1..] == ShownAll(toks[1..], rule);
    }
  }

  /**
   * Any number of matches between '<'-free text: the source's rewrite shows
   * each match as its replacement, if it has one, and keeps the text.
   */
  lemma WeaveApplied(texts: seq<string>, toks: seq<string>, rule: Rule)
    requires |texts| == |toks| + 1 && Safe(rule)
    requires forall k :: 0 <= k < |texts| ==> '<' !in texts[k]
    requires forall k :: 0 <= k < |toks| ==> IsToken(toks[k], Prefix(rule)) && Bracket(toks[k])
    ensures Apply(Weave(texts, toks), rule) == Weave(texts, ShownAll(toks, rule))
  {
    WeaveBracketed(texts, toks);
    RewrittenIsSubstituted(Weave(texts, toks), rule);
    WeaveSubstituted(texts, toks, rule);
  }

  /**
   * The source's second test: three mentions of two known users, one of them
   * mentioned twice, are all replaced.
   */
  lemma ManyMentionsExample()
    ensures Mentions("hello " + ("<@U1234>" + (" have you met " + ("<@U321>" + (" I think you would like them "
                     + ("<@U1234>" + "?"))))), map["U1234" := "crazybus", "U321" := "notcrazybus"])
         == "hello " + ("@crazybus" + (" have you met " + ("@notcrazybus" + (" I think you would like them "
            + ("@crazybus" + "?")))))
  {
    var texts := ["hello ", " have you met ", " I think you would like them ", "?"];
    assert "<@" + "U1234" + ">" == "<@U1234>" && "<@" + "U321" + ">" == "<@U321>";
    assert "@" + "crazybus" == "@crazybus" && "@" + "notcrazybus" == "@notcrazybus";
    TwoMentionsWoven(texts, "U1234", "crazybus", "U321", "notcrazybus");
    WeaveThree(texts[0], texts[1], texts[2], texts[3], "<@U1234>", "<@U321>", "<@U1234>");
    WeaveThree(texts[0], texts[1], texts[2], texts[3], "@crazybus", "@notcrazybus", "@crazybus");
    assert [texts[0], texts[1], texts[2], texts[3]] == texts;
  }

  /** Two known users mentioned first, second, first again, between '<'-free text. */
  lemma TwoMentionsWoven(texts: seq<string>, id1: string, name1: string, id2: string, name2: string)
    requires |texts| == 4 && forall k :: 0 <= k < 4 ==> '<' !in texts[k]
    requires id1 != id2 && '<' !in name1 && '<' !in name2
    requires |id1| >= 1 && id1[0] == 'U' && '>' !in id1 && '\n' !in id1 && '<' !in id1
    requires |id2| >= 1 && id2[0] == 'U' && '>' !in id2 && '\n' !in id2 && '<' !in id2
    ensures var t1, t2 := "<@" + id1 + ">", "<@" + id2 + ">";
      Mentions(Weave(texts, [t1, t2, t1]), map[id1 := name1, id2 := name2])
        == Weave(texts, ["@" + name1, "@" + name2, "@" + name1])
  {
    var users := map[id1 := name1, id2 := name2];
    var rule := MentionRule(users);
    var t1, t2 := "<@" + id1 + ">", "<@" + id2 + ">";
    var toks := [t1, t2, t1];
    MentionShown(id1, users);
    MentionShown(id2, users);
    WeaveApplied(texts, toks, rule);
    assert ShownAll(toks, rule) == ["@" + name1, "@" + name2, "@" + name1];
  }

  lemma WeaveThree(a: string, b: string, c: string, d: string, t1: string, t2: string, t3: string)
    ensures Weave([a, b, c, d], [t1, t2, t3]) == a + (t1 + (b + (t2 + (c + (t3 + d)))))
  {
    assert [c, d][1..] == [d] && [t3][1..] == [];
    assert Weave([c, d], [t3]) == c + (t3 + d);
    assert [b, c, d][1..] == [c, d] && [t2, t3][1..] == [t3];
    assert Weave([b, c, d], [t2, t3]) == b + (t2 + (c + (t3 + d)));
    assert [a, b, c, d][1..] == [b, c, d] && [t1, t2, t3][1..] == [t2, t3];
  }

  /** How the single pass shows the mention `<@id>`. */
  lemma MentionShown(id: string, users: map<string, string>)
    requires |id| >= 1 && id[0] == 'U' && '>' !in id && '\n' !in id && '<' !in id
    ensures IsToken("<@" + id + ">", MentionPrefix) && Bracket("<@" + id + ">")
    ensures Shown("<@" + id + ">", MentionRule(users)) == if id in users then "@" + users[id] else "<@" + id + ">"
  {
    MentionToken(id);
  }

  /** The source's third test: a message without mentions is left alone. */
  lemma NoMentionExample()
    ensures Mentions("hi", map["U1234" := "crazybus", "U321" := "notcrazybus"]) == "hi"
  {
    MentionFreeUnchanged("hi", map["U1234" := "crazybus", "U321" := "notcrazybus"]);
  }

  /**
   * A link match `<` + pieces joined by '|' + `>` with at least two pieces
   * becomes the hyperlink to its first piece titled by its last; the middle
   * pieces are dropped.
   */
  lemma LinkPieces(parts: seq<string>)
    requires |parts| >= 2 && forall k :: 0 <= k < |parts| ==> '|' !in parts[k]
    requires var inner := Join(parts, "|"); IsToken("<" + inner + ">", LinkPrefix)
    ensures Replacement(LinkRule, "<" + Join(parts, "|") + ">") == Some(Hyperlink(parts[0], parts[|parts| - 1]))
  {
    var inner := Join(parts, "|");
    var t := "<" + inner + ">";
    assert t[1..|t| - 1] == inner;
    SplitJoin(parts, '|');
    LinkSplit(t, parts);
  }

  /** A link match whose inside splits into two or more pieces. */
  lemma LinkSplit(t: string, parts: seq<string>)
    requires IsToken(t, LinkPrefix) && Split(t[1..|t| - 1], '|') == parts && |parts| >= 2
    ensures Replacement(LinkRule, t) == Some(Hyperlink(parts[0], parts[|parts| - 1]))
  {
  }

  /** A link match without a '|' has no replacement and is shown as it is. */
  lemma BareLink(t: string)
    requires IsToken(t, LinkPrefix) && '|' !in t
    ensures Replacement(LinkRule, t).None?
  {
    var inner := t[1..|t| - 1];
    assert forall k :: 0 <= k < |inner| ==> inner[k] == t[k + 1];
    IndexAbsent(inner, '|');
  }

  /** The link token `<url|title>`, for a url starting "http" and plain pieces. */
  lemma LinkToken(url: string, title: string)
    requires |url| >= 4 && url[..4] == "http"
    requires forall c :: c in url + title ==> c !in "|<>\n"
    ensures var t := "<" + url + "|" + title + ">";
      IsToken(t, LinkPrefix) && Bracket(t) && Replacement(LinkRule, t) == Some(Hyperlink(url, title))
  {
    var t := "<" + url + "|" + title + ">";
    assert '|' !in url && '|' !in title by {
      assert forall c :: c in url ==> c in url + title;
      assert forall c :: c in title ==> c in url + title;
    }
    var inner := url + "|" + title;
    assert Join([url, title], "|") == inner;
    assert t == "<" + inner + ">";
    assert t[..5] == LinkPrefix by {
      assert t[..5] == "<" + url[..4];
    }
    assert t[1..] == inner + ">" && t[..|t| - 1] == "<" + inner;
    assert '<' !in inner && '>' !in inner && '\n' !in inner by {
      assert forall c :: c in inner ==> c in url + title || c == '|';
    }
    assert t[5..|t| - 1] == inner[4..];
    assert forall c :: c in inner[4..] ==> c in inner;
    LinkPieces([url, title]);
  }

  /** With hyperlinks on, `<url|title>` between '<'-free text becomes the hyperlink. */
  lemma OneLink(a: string, url: string, title: string, b: string)
    requires '<' !in a && '<' !in b
    requires |url| >= 4 && url[..4] == "http"
    requires forall c :: c in url + title ==> c !in "|<>\n"
    ensures Links(a + ("<" + url + "|" + title + ">") + b, false) == a + Hyperlink(url, title) + b
  {
    LinkToken(url, title);
    OneMatch(a, "<" + url + "|" + title + ">", b, LinkRule);
  }

  /** `minInt`. */
  function MinInt(a: int, b: int): (r: int)
    ensures r <= a && r <= b && (r == a || r == b)
  {
    if a < b then a else b
  }

  /** `takeN`: the first `n` pieces, or all of them when there are fewer (Go panics on a negative `n`). */
  function TakeN(text: seq<string>, n: int): (r: seq<string>)
    requires n >= 0
    ensures r <= text
    ensures |r| == MinInt(n, |text|)
  {
    text[..MinInt(n, |text|)]
  }

  /** `trim` as a function: more than three lines become the first three and "...". */
  function Truncated(text: string): (r: string)
    ensures |Split(text, '\n')| <= 3 ==> r == text
  {
    var lines := Split(text, '\n');
    if |lines| <= 3 then text else Join(lines[..3] + ["..."], "\n")
  }

  /** `trim`: split into lines, keep three, mark a cut with "...", join again. */
  method Trim(text: string) returns (out: string)
    ensures out == Truncated(text)
  {
    var splits := Split(text, '\n');
    var splitted := TakeN(splits, 3);
    assert splitted == splits[..MinInt(3, |splits|)];
    if |splits| > 3 {
      splitted := splitted + ["..."];
    }
    out := Join(splitted, "\n");
    if |splits| <= 3 {
      assert splitted == splits;
      JoinSplit(text, '\n');
    } else {
      assert splitted == splits[..3] + ["..."];
    }
  }

  /** A cut text has exactly four lines: the first three of the input and "...". */
  lemma TruncatedLines(text: string)
    requires |Split(text, '\n')| > 3
    ensures Split(Truncated(text), '\n') == Split(text, '\n')[..3] + ["..."]
  {
    var kept := Split(text, '\n')[..3] + ["..."];
    assert '\n' !in "...";
    SplitJoin(kept, '\n');
  }

  /** Truncating twice is truncating once. */
  lemma TruncatedIdempotent(text: string)
    ensures Truncated(Truncated(text)) == Truncated(text)
  {
    if |Split(text, '\n')| > 3 {
      TruncatedLines(text);
      var r := Truncated(text);
      var kept := Split(text, '\n')[..3] + ["..."];
      assert Split(r, '\n') == kept && kept[..3] + ["..."] == kept;
    }
  }

  /** An attachment: its title (possibly empty) and its text. */
  datatype Attachment = Attachment(title: string, text: string)

  /** What one attachment contributes: "title: text", or the text alone when the title is empty. */
  function Piece(a: Attachment): string
  {
    if a.title != "" then a.title + ": " + a.text else a.text
  }

  function Pieces(atts: seq<Attachment>): (r: seq<string>)
    ensures |r| == |atts| && forall k :: 0 <= k < |atts| ==> r[k] == Piece(atts[k])
  {
    seq(|atts|, k requires 0 <= k < |atts| => Piece(atts[k]))
  }

  /** `formatAttachments`: the pieces of the attachments, in order, joined by newlines. */
  method FormatAttachments(attachments: seq<Attachment>) returns (out: string)
    ensures out == Join(Pieces(attachments), "\n")
  {
    var messages: seq<string> := [];
    for i := 0 to |attachments|
      invariant messages == Pieces(attachments[..i])
    {
      var a := attachments[i];
      var text := a.text;
      if a.title != "" {
        text := a.title + ": " + text;
      }
      messages := messages + [text];
      assert attachments[..i + 1] == attachments[..i] + [a];
    }
    assert attachments[..|attachments|] == attachments;
    out := Join(messages, "\n");
  }

  /**
   * When no title or text holds a newline, the lines of the flattened text are
   * exactly the attachments' pieces, one per attachment and in order.
   */
  lemma FlattenedLines(atts: seq<Attachment>)
    requires |atts| >= 1
    requires forall k :: 0 <= k < |atts| ==> '\n' !in atts[k].title && '\n' !in atts[k].text
    ensures Split(Join(Pieces(atts), "\n"), '\n') == Pieces(atts)
  {
    var ps := Pieces(atts);
    forall k | 0 <= k < |ps| ensures '\n' !in ps[k] {
      assert '\n' !in ": ";
    }
    SplitJoin(ps, '\n');
  }

  /** An untitled attachment "a" and one "b" titled "t" flatten to "a\nt: b". */
  lemma FlattenExample()
    ensures Join(Pieces([Attachment("", "a"), Attachment("t", "b")]), "\n") == "a\nt: b"
  {
    var ps := Pieces([Attachment("", "a"), Attachment("t", "b")]);
    assert ps[0] == "a" && ps[1] == "t: b";
    assert ps == ["a", "t: b"];
  }
}
