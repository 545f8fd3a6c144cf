/**
 * Token rewriting shared by mention substitution and hyperlink formatting.
 * The source finds all matches first and then, match by match, runs a
 * replace-all of the match text over the evolving message (`Rewritten`).
 * `Substituted` is the single left-to-right pass: each match is replaced
 * once, where it stands, and everything else is copied.
 * `RewrittenIsSubstituted` proves the two agree on bracketed messages when no
 * replacement text contains a '<'.
 */
module Rewrite {
  import opened Wrappers
  import opened GoStrings
  import opened Scanner

  const MentionPrefix: string := "<@U"
  const LinkPrefix: string := "<http"

  /** What a match is rewritten to: a user mention, or a link. */
  datatype Rule = MentionRule(users: map<string, string>) | LinkRule

  function Prefix(rule: Rule): (p: string)
    ensures p != [] && p[0] == '<' && '>' !in p && '\n' !in p
  {
    match rule
    case MentionRule(_) => MentionPrefix
    case LinkRule => LinkPrefix
  }

  /** The OSC 8 terminal hyperlink: ESC ]8;; url BEL title ESC ]8;; BEL. */
  function Hyperlink(url: string, title: string): string
  {
    "\U{1B}]8;;" + url + "\U{7}" + title + "\U{1B}]8;;\U{7}"
  }

  /**
   * The text a match becomes, or None when it stays: a mention `<@ID>` whose
   * ID is a known user becomes "@" and the user's name; a link with at least
   * one '|' becomes a hyperlink to its first piece titled by its last piece.
   */
  function Replacement(rule: Rule, tok: string): Option<string>
    requires IsToken(tok, Prefix(rule))
  {
    match rule
    case MentionRule(users) =>
      var id := tok[2..|tok| - 1];
      if id in users then Some("@" + users[id]) else None
    case LinkRule =>
      var parts := Split(tok[1..|tok| - 1], '|');
      if |parts| == 1 then None else Some(Hyperlink(parts[0], parts[|parts| - 1]))
  }

  /** One step of the source's loop: replace every occurrence of the match, if it has a replacement. */
  function Step(msg: string, tok: string, rule: Rule): string
    requires IsToken(tok, Prefix(rule))
  {
    match Replacement(rule, tok)
    case Some(r) => ReplaceAll(msg, tok, r)
    case None => msg
  }

  predicate AllTokens(toks: seq<string>, rule: Rule)
  {
    forall k :: 0 <= k < |toks| ==> IsToken(toks[k], Prefix(rule))
  }

  /** The source's loop: the steps for the matches, in order, on the evolving message. */
  function Rewritten(msg: string, toks: seq<string>, rule: Rule): string
    requires AllTokens(toks, rule)
    decreases |toks|
  {
    if toks == [] then msg else Rewritten(Step(msg, toks[0], rule), toks[1..], rule)
  }

  /** The source's operation: find the matches of the original message, then rewrite. */
  function Apply(msg: string, rule: Rule): string
  {
    Rewritten(msg, FindAll(msg, Prefix(rule)), rule)
  }

  /** A match as the single pass shows it. */
  function Shown(tok: string, rule: Rule): string
    requires IsToken(tok, Prefix(rule))
  {
    Replacement(rule, tok).GetOr(tok)
  }

  /** The single pass: each match in place of itself, every other character copied. */
  function Substituted(s: string, rule: Rule): string
    decreases |s|
  {
    if s == [] then []
    else
      match TokenAt(s, Prefix(rule))
      case Some(n) => Shown(s[..n], rule) + Substituted(s[n..], rule)
      case None => [s[0]] + Substituted(s[1..], rule)
  }

  /** The single pass with only the matches in `done` replaced: the state after some steps. */
  ghost function SubstitutedFor(s: string, rule: Rule, done: set<string>): string
    decreases |s|
  {
    if s == [] then []
    else
      match TokenAt(s, Prefix(rule))
      case Some(n) =>
        (if s[..n] in done then Shown(s[..n], rule) else s[..n]) + SubstitutedFor(s[n..], rule, done)
      case None => [s[0]] + SubstitutedFor(s[1..], rule, done)
  }

  /** No replacement text of the rule contains a '<': user names are free of it (links always are). */
  predicate Safe(rule: Rule)
  {
    match rule
    case MentionRule(users) => forall id :: id in users ==> '<' !in users[id]
    case LinkRule => true
  }

  lemma HyperlinkOpenFree(url: string, title: string)
    requires '<' !in url && '<' !in title
    ensures '<' !in Hyperlink(url, title)
  {
    var osc, bel := "\U{1B}]8;;", "\U{7}";
    assert '<' !in osc && '<' !in bel;
    assert Hyperlink(url, title) == osc + url + bel + title + osc + bel;
  }

  /** The replacement of a bracket under a safe rule has no '<'. */
  lemma ReplacementOpenFree(rule: Rule, tok: string)
    requires Safe(rule) && IsToken(tok, Prefix(rule)) && Bracket(tok) && Replacement(rule, tok).Some?
    ensures '<' !in Shown(tok, rule)
  {
    if rule.MentionRule? {
      var id := tok[2..|tok| - 1];
      if id in rule.users {
        assert '<' !in rule.users[id];
        assert Shown(tok, rule) == "@" + rule.users[id];
      }
    } else {
      var inner := tok[1..|tok| - 1];
      assert '<' !in inner by {
        assert tok[1..] == inner + [tok[|tok| - 1]];
      }
      var parts := Split(inner, '|');
      if |parts| > 1 {
        if '<' in parts[0] {
          SplitWithin(inner, '|', 0, '<');
        }
        if '<' in parts[|parts| - 1] {
          SplitWithin(inner, '|', |parts| - 1, '<');
        }
        HyperlinkOpenFree(parts[0], parts[|parts| - 1]);
        assert Shown(tok, rule) == Hyperlink(parts[0], parts[|parts| - 1]);
      }
    }
  }

  /** Nothing is replaced before any step. */
  lemma {:induction false} SubstitutedForNothing(s: string, rule: Rule)
    ensures SubstitutedFor(s, rule, {}) == s
    decreases |s|
  {
    if s != [] {
      match TokenAt(s, Prefix(rule))
      case Some(n) =>
        SubstitutedForNothing(s[n..], rule);
        assert s == s[..n] + s[n..];
      case None =>
        SubstitutedForNothing(s[1..], rule);
        assert s == [s[0]] + s[1..];
    }
  }

  /** Once every match is done, the partial pass is the single pass. */
  lemma {:induction false} SubstitutedForAll(s: string, rule: Rule, done: set<string>)
    requires forall t :: t in FindAll(s, Prefix(rule)) ==> t in done
    ensures SubstitutedFor(s, rule, done) == Substituted(s, rule)
    decreases |s|
  {
    if s != [] {
      match TokenAt(s, Prefix(rule))
      case Some(n) =>
        assert FindAll(s, Prefix(rule)) == [s[..n]] + FindAll(s[n..], Prefix(rule));
        SubstitutedForAll(s[n..], rule, done);
      case None =>
        SubstitutedForAll(s[1..], rule, done);
    }
  }

  /** A stretch without '<' holds no match and is copied by the partial pass. */
  lemma {:induction false} SubstitutedForCopies(x: string, y: string, rule: Rule, done: set<string>)
    requires '<' !in x
    ensures SubstitutedFor(x + y, rule, done) == x + SubstitutedFor(y, rule, done)
  {
    if x != [] {
      var s := x + y;
      var p := Prefix(rule);
      if |p| <= |s| {
        assert s[..|p|][0] == x[0];
      }
      assert TokenAt(s, p).None?;
      assert s[1..] == x[1..] + y;
      SubstitutedForCopies(x[1..], y, rule, done);
      assert x == [x[0]] + x[1..];
    } else {
      assert x + y == y;
    }
  }

  /** A step for a match the rule leaves alone changes nothing. */
  lemma {:induction false} SubstitutedForKept(s: string, rule: Rule, done: set<string>, m: string)
    requires IsToken(m, Prefix(rule)) && Replacement(rule, m).None?
    ensures SubstitutedFor(s, rule, done + {m}) == SubstitutedFor(s, rule, done)
    decreases |s|
  {
    if s != [] {
      match TokenAt(s, Prefix(rule))
      case Some(n) => SubstitutedForKept(s[n..], rule, done, m);
      case None => SubstitutedForKept(s[1..], rule, done, m);
    }
  }

  /** The only '>' of a bracket is its last character. */
  lemma BracketCloseAt(t: string, k: nat)
    requires Bracket(t) && k < |t|
    ensures t[k] == '>' ==> k == |t| - 1
  {
    assert k < |t| - 1 ==> t[k] in t[..|t| - 1];
  }

  /** A bracket at the front of a string is the only bracket the string can start with. */
  lemma BracketFront(t: string, y: string, m: string)
    requires Bracket(t) && Bracket(m)
    ensures |m| <= |t + y| && (t + y)[..|m|] == m ==> m == t
  {
    if |m| <= |t + y| && (t + y)[..|m|] == m {
      var k := if |m| <= |t| then |m| - 1 else |t| - 1;
      assert m[k] == t[k];
      BracketCloseAt(t, k);
      BracketCloseAt(m, k);
      assert m == t[..|m|];
    }
  }

  /** A replace-all of one bracket leaves a different bracket in front alone. */
  lemma OtherBracket(t: string, y: string, m: string, r: string)
    requires Bracket(t) && Bracket(m) && t != m
    ensures ReplaceAll(t + y, m, r) == t + ReplaceAll(y, m, r)
  {
    BracketFront(t, y, m);
    ReplaceAllMiss(t + y, m, r);
    BracketTail(t, y, m, r);
    assert t == [t[0]] + t[1..];
  }

  /** After its '<', a bracket holds no '<' for a replace-all of another bracket to start at. */
  lemma BracketTail(t: string, y: string, m: string, r: string)
    requires Bracket(t) && Bracket(m)
    ensures ReplaceAll((t + y)[1..], m, r) == t[1..] + ReplaceAll(y, m, r)
  {
    assert (t + y)[1..] == t[1..] + y;
    ReplaceAllSkips(t[1..], y, m, r);
  }

  /** The step at a match at the front, given the step on what follows it. */
  lemma StepAtToken(s: string, rule: Rule, done: set<string>, m: string, r: string, n: nat)
    requires Bracketed(s) && Safe(rule)
    requires IsToken(m, Prefix(rule)) && Bracket(m) && Replacement(rule, m) == Some(r)
    requires s != [] && TokenAt(s, Prefix(rule)) == Some(n)
    requires ReplaceAll(SubstitutedFor(s[n..], rule, done), m, r) == SubstitutedFor(s[n..], rule, done + {m})
    ensures ReplaceAll(SubstitutedFor(s, rule, done), m, r) == SubstitutedFor(s, rule, done + {m})
  {
    var tok := s[..n];
    TokenIsBracket(s, Prefix(rule), n);
    var after := SubstitutedFor(s[n..], rule, done);
    if tok in done && Replacement(rule, tok).Some? {
      ReplacementOpenFree(rule, tok);
      ReplaceAllSkips(Shown(tok, rule), after, m, r);
    } else if tok == m {
      ReplaceAllHit(after, m, r);
    } else {
      OtherBracket(tok, after, m, r);
    }
  }

  /** The step at a character other than '<', given the step on the rest. */
  lemma StepAtChar(s: string, rule: Rule, done: set<string>, m: string, r: string)
    requires IsToken(m, Prefix(rule)) && Bracket(m)
    requires s != [] && s[0] != '<'
    requires ReplaceAll(SubstitutedFor(s[1..], rule, done), m, r) == SubstitutedFor(s[1..], rule, done + {m})
    ensures ReplaceAll(SubstitutedFor(s, rule, done), m, r) == SubstitutedFor(s, rule, done + {m})
  {
    var p := Prefix(rule);
    if |p| <= |s| {
      assert s[..|p|][0] == s[0];
    }
    assert TokenAt(s, p).None?;
    ReplaceAllSkips([s[0]], SubstitutedFor(s[1..], rule, done), m, r);
  }

  /** Where no match starts, the partial pass copies one character. */
  lemma SubstitutedForMiss(s: string, rule: Rule, done: set<string>)
    requires s != [] && TokenAt(s, Prefix(rule)).None?
    ensures SubstitutedFor(s, rule, done) == [s[0]] + SubstitutedFor(s[1..], rule, done)
  {
  }

  /** The inside of a bracket has no '<' and is copied by the partial pass. */
  lemma SubstitutedForInside(s: string, rule: Rule, done: set<string>, b: nat)
    requires s != [] && 2 <= b <= |s| && Bracket(s[..b])
    ensures SubstitutedFor(s[1..], rule, done) == s[1..b] + SubstitutedFor(s[b..], rule, done)
  {
    var inner := s[..b][1..];
    assert s[1..] == inner + s[b..];
    SubstitutedForCopies(inner, s[b..], rule, done);
  }

  /** A bracket that is not a match is copied whole by the partial pass. */
  lemma SubstitutedForBracket(s: string, rule: Rule, done: set<string>, b: nat)
    requires s != [] && TokenAt(s, Prefix(rule)).None?
    requires 2 <= b <= |s| && Bracket(s[..b])
    ensures SubstitutedFor(s, rule, done) == s[..b] + SubstitutedFor(s[b..], rule, done)
  {
    SubstitutedForMiss(s, rule, done);
    SubstitutedForInside(s, rule, done, b);
    var head, inner, after := [s[0]], s[1..b], SubstitutedFor(s[b..], rule, done);
    assert head + (inner + after) == (head + inner) + after;
    assert s[..b] == head + inner;
  }

  /** The step at a '<' that starts no match, given the step on what follows its bracket. */
  lemma StepAtBracket(s: string, rule: Rule, done: set<string>, m: string, r: string, b: nat)
    requires IsToken(m, Prefix(rule)) && Bracket(m)
    requires s != [] && TokenAt(s, Prefix(rule)).None?
    requires 2 <= b <= |s| && Bracket(s[..b])
    requires ReplaceAll(SubstitutedFor(s[b..], rule, done), m, r) == SubstitutedFor(s[b..], rule, done + {m})
    ensures ReplaceAll(SubstitutedFor(s, rule, done), m, r) == SubstitutedFor(s, rule, done + {m})
  {
    var t, rest := s[..b], s[b..];
    SubstitutedForBracket(s, rule, done, b);
    SubstitutedForBracket(s, rule, done + {m}, b);
    TokenFront(m, Prefix(rule), rest);
    assert t == m ==> s == m + rest;
    OtherBracket(t, SubstitutedFor(rest, rule, done), m, r);
  }

  /**
   * One step of the source's loop, taken on the state after earlier steps,
   * is one more match done in the single pass.
   */
  lemma {:induction false} StepDone(s: string, rule: Rule, done: set<string>, m: string, r: string)
    requires Bracketed(s) && Safe(rule)
    requires IsToken(m, Prefix(rule)) && Bracket(m) && Replacement(rule, m) == Some(r)
    ensures ReplaceAll(SubstitutedFor(s, rule, done), m, r) == SubstitutedFor(s, rule, done + {m})
    decreases |s|
  {
    if s != [] {
      match TokenAt(s, Prefix(rule))
      case Some(n) =>
        BracketedSuffix(s, n);
        StepDone(s[n..], rule, done, m, r);
        StepAtToken(s, rule, done, m, r, n);
      case None =>
        BracketedSuffix(s, 1);
        if s[0] != '<' {
          StepDone(s[1..], rule, done, m, r);
          StepAtChar(s, rule, done, m, r);
        } else {
          var b := BracketLength(s);
          BracketedSuffix(s, b);
          StepDone(s[b..], rule, done, m, r);
          StepAtBracket(s, rule, done, m, r, b);
        }
    }
  }

  /** The steps for a list of matches, taken on a partial state, mark them all done. */
  lemma {:induction false} StepsDone(s: string, rule: Rule, done: set<string>, toks: seq<string>)
    requires Bracketed(s) && Safe(rule) && AllTokens(toks, rule)
    requires forall k :: 0 <= k < |toks| ==> Bracket(toks[k])
    ensures Rewritten(SubstitutedFor(s, rule, done), toks, rule)
         == SubstitutedFor(s, rule, done + set t | t in toks)
    decreases |toks|
  {
    if toks == [] {
      assert (set t | t in toks) == {};
      assert done + {} == done;
    } else {
      var m := toks[0];
      match Replacement(rule, m) {
        case Some(r) => StepDone(s, rule, done, m, r);
        case None => SubstitutedForKept(s, rule, done, m);
      }
      StepsDone(s, rule, done + {m}, toks[1..]);
      assert done + {m} + (set t | t in toks[1..]) == done + set t | t in toks;
    }
  }

  /**
   * On a bracketed message under a safe rule, the source's find-then-replace-all
   * loop gives the single pass: every match with a replacement is replaced
   * where it stands and nothing else changes.
   */
  lemma RewrittenIsSubstituted(s: string, rule: Rule)
    requires Bracketed(s) && Safe(rule)
    ensures Apply(s, rule) == Substituted(s, rule)
  {
    var toks := FindAll(s, Prefix(rule));
    FindAllBrackets(s, Prefix(rule));
    SubstitutedForNothing(s, rule);
    StepsDone(s, rule, {}, toks);
    assert {} + (set t | t in toks) == set t | t in toks;
    SubstitutedForAll(s, rule, set t | t in toks);
  }
}
