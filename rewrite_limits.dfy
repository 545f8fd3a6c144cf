/**
 * Two messages on which the source's replace-all loop and the single pass
 * differ: each shows that one condition of `Rewrite.RewrittenIsSubstituted`
 * cannot be dropped.
 */
module RewriteLimits {
  import opened Wrappers
  import opened GoStrings
  import opened Scanner
  import opened Rewrite
  import opened Format

  lemma UnbracketedMatches()
    ensures FindAll("<@U1>" + "<@U<@U1>", MentionPrefix) == ["<@U1>", "<@U<@U1>"]
  {
    var t, u := "<@U1>", "<@U<@U1>";
    assert IsToken(t, MentionPrefix) by { assert t[..3] == MentionPrefix && t[3..4] == "1"; }
    assert IsToken(u, MentionPrefix) by { assert u[..3] == MentionPrefix && u[3..7] == "<@U1"; }
    TokenFront(t, MentionPrefix, u);
    TokenFront(u, MentionPrefix, []);
    assert (t + u)[..|t|] == t && (t + u)[|t|..] == u;
    assert u + [] == u && (u + [])[..|u|] == u && (u + [])[|u|..] == [];
  }

  lemma UnbracketedReplaced()
    ensures ReplaceAll("<@U1>" + "<@U<@U1>", "<@U1>", "@a") == "@a" + "<" + "@U" + "@a"
  {
    var t, u, w := "<@U1>", "<@U<@U1>", "@a";
    ReplaceAllHit(u, t, w);
    assert u[..|t|][3] != t[3];
    ReplaceAllMiss(u, t, w);
    assert u[1..] == "@U" + (t + []);
    assert '<' !in "@U";
    ReplaceAllSkips("@U", t + [], t, w);
    ReplaceAllHit([], t, w);
  }

  lemma UnbracketedRules(rule: Rule)
    requires rule == MentionRule(map["U1" := "a"])
    ensures IsToken("<@U1>", MentionPrefix) && IsToken("<@U<@U1>", MentionPrefix)
    ensures Replacement(rule, "<@U1>") == Some("@a") && Replacement(rule, "<@U<@U1>") == None
  {
    var t, u := "<@U1>", "<@U<@U1>";
    assert IsToken(t, MentionPrefix) by { assert t[..3] == MentionPrefix && t[3..4] == "1"; }
    assert IsToken(u, MentionPrefix) by { assert u[..3] == MentionPrefix && u[3..7] == "<@U1"; }
    assert t[2..|t| - 1] == "U1" && u[2..|u| - 1] == "U<@U1";
    assert "U1" in rule.users && rule.users["U1"] == "a" && "@" + "a" == "@a";
    assert "U<@U1" !in rule.users;
  }

  lemma UnbracketedSteps(rule: Rule)
    requires rule == MentionRule(map["U1" := "a"])
    ensures AllTokens(["<@U1>", "<@U<@U1>"], rule)
    ensures Rewritten("<@U1>" + "<@U<@U1>", ["<@U1>", "<@U<@U1>"], rule)
         == ReplaceAll("<@U1>" + "<@U<@U1>", "<@U1>", "@a")
  {
    var t, u := "<@U1>", "<@U<@U1>";
    UnbracketedRules(rule);
    var r := ReplaceAll(t + u, t, "@a");
    var one: seq<string> := [u];
    assert [t, u][1..] == one && one[1..] == [];
    assert Rewritten(t + u, [t, u], rule) == Rewritten(r, [u], rule);
  }

  lemma UnbracketedSingle(rule: Rule)
    requires rule == MentionRule(map["U1" := "a"])
    ensures Substituted("<@U1>" + "<@U<@U1>", rule) == "@a" + "<@U<@U1>"
  {
    var t, u := "<@U1>", "<@U<@U1>";
    UnbracketedRules(rule);
    SubstitutedToken(t, u, rule);
    SubstitutedToken(u, [], rule);
    assert u + [] == u;
  }

  /**
   * Without the bracket condition the two differ: in "<@U1><@U<@U1>" the
   * second match "<@U<@U1>" names no user, yet the source, replacing every
   * occurrence of "<@U1>", also rewrites the copy inside it.
   */
  lemma Unbracketed()
    ensures Mentions("<@U1>" + "<@U<@U1>", map["U1" := "a"]) == "@a" + "<" + "@U" + "@a"
    ensures Substituted("<@U1>" + "<@U<@U1>", MentionRule(map["U1" := "a"])) == "@a" + "<@U<@U1>"
  {
    UnbracketedMatches();
    UnbracketedReplaced();
    UnbracketedSteps(MentionRule(map["U1" := "a"]));
    UnbracketedSingle(MentionRule(map["U1" := "a"]));
  }

  lemma NameMatches()
    ensures FindAll("<@U1>" + (" " + "<@U2>"), MentionPrefix) == ["<@U1>", "<@U2>"]
  {
    var t1, t2, sp := "<@U1>", "<@U2>", " ";
    assert IsToken(t1, MentionPrefix) by { assert t1[..3] == MentionPrefix && t1[3..4] == "1"; }
    assert IsToken(t2, MentionPrefix) by { assert t2[..3] == MentionPrefix && t2[3..4] == "2"; }
    TokenFront(t1, MentionPrefix, sp + t2);
    TokenFront(t2, MentionPrefix, []);
    var s := t1 + (sp + t2);
    assert s[..|t1|] == t1 && s[|t1|..] == sp + t2;
    assert (sp + t2)[..3][0] != MentionPrefix[0] && (sp + t2)[1..] == t2;
    assert TokenAt(sp + t2, MentionPrefix).None?;
    assert FindAll(sp + t2, MentionPrefix) == FindAll(t2, MentionPrefix);
    assert t2 + [] == t2 && t2[..|t2|] == t2 && t2[|t2|..] == [];
    assert FindAll(t2, MentionPrefix) == [t2];
  }

  lemma NameReplacedFirst()
    ensures ReplaceAll("<@U1>" + (" " + "<@U2>"), "<@U1>", "@<@U2>") == "@<@U2>" + (" " + "<@U2>")
  {
    var t1, t2, sp, w := "<@U1>", "<@U2>", " ", "@<@U2>";
    ReplaceAllHit(sp + t2, t1, w);
    assert '<' !in sp;
    ReplaceAllSkips(sp, t2, t1, w);
    assert t2[..|t1|][3] != t1[3];
    ReplaceAllMiss(t2, t1, w);
    assert '<' !in t2[1..];
    ReplaceAllSkips(t2[1..], [], t1, w);
    assert t2[1..] + [] == t2[1..] && [t2[0]] + t2[1..] == t2;
  }

  lemma NameReplacedSecond()
    ensures ReplaceAll("@<@U2>" + (" " + "<@U2>"), "<@U2>", "@b") == "@" + ("@b" + (" " + "@b"))
  {
    var t2, sp, w := "<@U2>", " ", "@b";
    assert "@<@U2>" + (sp + t2) == "@" + (t2 + (sp + (t2 + [])));
    assert '<' !in "@" && '<' !in sp;
    ReplaceAllSkips("@", t2 + (sp + (t2 + [])), t2, w);
    ReplaceAllHit(sp + (t2 + []), t2, w);
    ReplaceAllSkips(sp, t2 + [], t2, w);
    ReplaceAllHit([], t2, w);
  }

  lemma NameRules(rule: Rule)
    requires rule == MentionRule(map["U1" := "<@U2>", "U2" := "b"])
    ensures IsToken("<@U1>", MentionPrefix) && IsToken("<@U2>", MentionPrefix)
    ensures Replacement(rule, "<@U1>") == Some("@<@U2>") && Replacement(rule, "<@U2>") == Some("@b")
  {
    var t1, t2 := "<@U1>", "<@U2>";
    assert IsToken(t1, MentionPrefix) by { assert t1[..3] == MentionPrefix && t1[3..4] == "1"; }
    assert IsToken(t2, MentionPrefix) by { assert t2[..3] == MentionPrefix && t2[3..4] == "2"; }
    assert t1[2..|t1| - 1] == "U1" && t2[2..|t2| - 1] == "U2";
    assert rule.users["U1"] == "<@U2>" && rule.users["U2"] == "b";
    assert "@" + "<@U2>" == "@<@U2>" && "@" + "b" == "@b";
  }

  lemma NameSteps(rule: Rule)
    requires rule == MentionRule(map["U1" := "<@U2>", "U2" := "b"])
    ensures AllTokens(["<@U1>", "<@U2>"], rule)
    ensures Rewritten("<@U1>" + (" " + "<@U2>"), ["<@U1>", "<@U2>"], rule)
         == ReplaceAll(ReplaceAll("<@U1>" + (" " + "<@U2>"), "<@U1>", "@<@U2>"), "<@U2>", "@b")
  {
    var t1, t2, sp := "<@U1>", "<@U2>", " ";
    NameRules(rule);
    var r1 := ReplaceAll(t1 + (sp + t2), t1, "@<@U2>");
    var one: seq<string> := [t2];
    assert [t1, t2][1..] == one && one[1..] == [];
    assert Rewritten(t1 + (sp + t2), [t1, t2], rule) == Rewritten(r1, one, rule);
  }

  lemma NameSingle(rule: Rule)
    requires rule == MentionRule(map["U1" := "<@U2>", "U2" := "b"])
    ensures Substituted("<@U1>" + (" " + "<@U2>"), rule) == "@<@U2>" + (" " + "@b")
  {
    var t1, t2, sp := "<@U1>", "<@U2>", " ";
    NameRules(rule);
    SubstitutedToken(t1, sp + t2, rule);
    assert '<' !in sp;
    SubstitutedCopies(sp, t2, rule);
    SubstitutedToken(t2, [], rule);
    assert t2 + [] == t2;
  }

  /**
   * Without the condition on names the two differ: when the name of U1 is
   * itself the mention "<@U2>", the source's later step rewrites it again.
   */
  lemma NameHoldsMention()
    ensures Mentions("<@U1>" + (" " + "<@U2>"), map["U1" := "<@U2>", "U2" := "b"]) == "@" + ("@b" + (" " + "@b"))
    ensures Substituted("<@U1>" + (" " + "<@U2>"), MentionRule(map["U1" := "<@U2>", "U2" := "b"]))
         == "@<@U2>" + (" " + "@b")
  {
    NameSteps(MentionRule(map["U1" := "<@U2>", "U2" := "b"]));
    NameSingle(MentionRule(map["U1" := "<@U2>", "U2" := "b"]));
    NameMatches();
    NameReplacedFirst();
    NameReplacedSecond();
  }
}
