/**
 * The two regular expressions of the client, `<@U.*?>` and `<http.*?>`, as an
 * explicit scanner: a fixed prefix, then the shortest run of characters other
 * than a newline (RE2's `.`) that reaches a '>'. `FindAll` is Go's
 * `FindAllString(s, -1)`: leftmost matches, left to right, never overlapping.
 */
module Scanner {
  import opened Wrappers

  /** What `.*?` may cover before the closing '>': no '>' (the match is the shortest) and no newline. */
  predicate Plain(w: string)
  {
    '>' !in w && '\n' !in w
  }

  /** `t` is a whole match of `prefix .*? >`. */
  predicate IsToken(t: string, prefix: string)
  {
    |t| > |prefix| && t[..|prefix|] == prefix && t[|t| - 1] == '>' && Plain(t[|prefix|..|t| - 1])
  }

  /** Length of the shortest start of `s` that ends with '>' and has no newline, if there is one. */
  function CloseLength(s: string): (r: Option<nat>)
    ensures r.Some? ==> 0 < r.value <= |s| && s[r.value - 1] == '>' && Plain(s[..r.value - 1])
  {
    if s == [] then None
    else if s[0] == '>' then Some(1)
    else if s[0] == '\n' then None
    else
      match CloseLength(s[1..])
      case Some(n) =>
        assert s[..n] == [s[0]] + s[1..][..n - 1];
        Some(n + 1)
      case None => None
  }

  /** Length of the match of `prefix .*? >` that starts at the front of `s`, if one does. */
  function TokenAt(s: string, prefix: string): (r: Option<nat>)
    ensures r.Some? ==> r.value <= |s| && IsToken(s[..r.value], prefix)
  {
    if |prefix| <= |s| && s[..|prefix|] == prefix then
      match CloseLength(s[|prefix|..])
      case Some(n) =>
        assert s[..|prefix| + n][|prefix|..|prefix| + n - 1] == s[|prefix|..][..n - 1];
        Some(|prefix| + n)
      case None => None
    else None
  }

  /** `FindAllString(s, -1)` for `prefix .*? >`: the matches, leftmost first, none overlapping. */
  function FindAll(s: string, prefix: string): (r: seq<string>)
    ensures forall k :: 0 <= k < |r| ==> IsToken(r[k], prefix)
    decreases |s|
  {
    if s == [] then []
    else
      match TokenAt(s, prefix)
      case Some(n) => [s[..n]] + FindAll(s[n..], prefix)
      case None => FindAll(s[1..], prefix)
  }

  /** The closing search stops at the first '>' when no newline comes before it. */
  lemma {:induction false} CloseFront(w: string, rest: string)
    requires Plain(w)
    ensures CloseLength(w + ">" + rest) == Some(|w| + 1)
  {
    if w != [] {
      assert (w + ">" + rest)[1..] == w[1..] + ">" + rest;
      CloseFront(w[1..], rest);
    }
  }

  /** A whole match at the front of a string is exactly what the scanner finds there. */
  lemma TokenFront(t: string, prefix: string, rest: string)
    requires IsToken(t, prefix)
    ensures TokenAt(t + rest, prefix) == Some(|t|)
  {
    var s := t + rest;
    var w := t[|prefix|..|t| - 1];
    assert s[..|prefix|] == prefix;
    assert s[|prefix|..] == w + ">" + rest;
    CloseFront(w, rest);
  }

  /** No match starts where the scanner finds none: the scanner misses no match. */
  lemma TokenAtNone(s: string, prefix: string, n: nat)
    requires TokenAt(s, prefix).None? && n <= |s|
    ensures !IsToken(s[..n], prefix)
  {
    if IsToken(s[..n], prefix) {
      assert s == s[..n] + s[n..];
      TokenFront(s[..n], prefix, s[n..]);
    }
  }

  /**
   * The scanner skips text without '<' and then finds a whole match: plain
   * text before a match hides nothing, and the match is not missed.
   */
  lemma {:induction false} FindAllAfter(x: string, t: string, y: string, prefix: string)
    requires prefix != [] && prefix[0] == '<' && '<' !in x && IsToken(t, prefix)
    ensures FindAll(x + t + y, prefix) == [t] + FindAll(y, prefix)
    decreases |x|
  {
    var s := x + t + y;
    if x == [] {
      assert s == t + y;
      TokenFront(t, prefix, y);
      assert s[..|t|] == t && s[|t|..] == y;
    } else {
      if |prefix| <= |s| {
        assert s[..|prefix|][0] == x[0];
      }
      assert TokenAt(s, prefix).None?;
      assert s[1..] == x[1..] + t + y;
      FindAllAfter(x[1..], t, y, prefix);
    }
  }

  /** A match cannot span lines. */
  lemma TokenOneLine(t: string, prefix: string)
    requires IsToken(t, prefix) && '\n' !in prefix
    ensures '\n' !in t
  {
    assert t == t[..|prefix|] + t[|prefix|..|t| - 1] + [t[|t| - 1]];
  }

  /** A string without the prefix's first character has no match. */
  lemma {:induction false} FindAllNone(s: string, prefix: string)
    requires prefix != [] && prefix[0] !in s
    ensures FindAll(s, prefix) == []
    decreases |s|
  {
    if s != [] {
      if |prefix| <= |s| {
        assert s[..|prefix|][0] == s[0];
      }
      assert TokenAt(s, prefix).None?;
      FindAllNone(s[1..], prefix);
    }
  }

  /**
   * Every '<' of `s` is closed by a '>' before any further '<'. The chat service
   * escapes '<' and '>' in the text users type, so its messages have this form.
   */
  predicate Bracketed(s: string)
    decreases |s|
  {
    s == [] || ((s[0] == '<' ==> Closes(s[1..])) && Bracketed(s[1..]))
  }

  /** A '>' comes before any '<' in `s`. */
  predicate Closes(s: string)
    decreases |s|
  {
    s != [] && s[0] != '<' && (s[0] == '>' || Closes(s[1..]))
  }

  /** `t` runs from a '<' to the first '>' after it, with no '<' in between. */
  predicate Bracket(t: string)
  {
    |t| >= 2 && t[0] == '<' && t[|t| - 1] == '>' && '<' !in t[1..] && '>' !in t[..|t| - 1]
  }

  lemma {:induction false} BracketedSuffix(s: string, k: nat)
    requires Bracketed(s) && k <= |s|
    ensures Bracketed(s[k..])
    decreases k
  {
    if k > 0 {
      BracketedSuffix(s[1..], k - 1);
      assert s[1..][k - 1..] == s[k..];
    }
  }

  /** Before its first '>', a string that closes has no '<'. */
  lemma {:induction false} ClosesOpenFree(x: string, k: nat)
    requires Closes(x) && k <= |x| && '>' !in x[..k]
    ensures '<' !in x[..k]
  {
    if k > 0 {
      assert x[0] in x[..k];
      if x[0] != '>' {
        assert x[1..][..k - 1] == x[1..k];
        ClosesOpenFree(x[1..], k - 1);
        assert x[..k] == [x[0]] + x[1..k];
      }
    }
  }

  /** In a bracketed string, a match of a prefix that starts with '<' is a bracket. */
  lemma TokenIsBracket(s: string, prefix: string, n: nat)
    requires Bracketed(s) && prefix != [] && prefix[0] == '<' && '>' !in prefix
    requires TokenAt(s, prefix) == Some(n)
    ensures Bracket(s[..n])
  {
    var t := s[..n];
    assert t[0] == prefix[0];
    assert t[..n - 1] == prefix + t[|prefix|..n - 1];
    assert '>' !in t[..n - 1];
    assert s[1..][..n - 2] == t[1..n - 1];
    ClosesOpenFree(s[1..], n - 2);
    assert t[1..] == t[1..n - 1] + [t[n - 1]];
  }

  /** Length of the run from a leading '<' to the first '>'. */
  function BracketLength(s: string): (n: nat)
    requires s != [] && s[0] == '<' && Closes(s[1..])
    ensures 2 <= n <= |s| && Bracket(s[..n])
  {
    var j := CloseIndex(s[1..]);
    assert s[..j + 2] == [s[0]] + s[1..][..j + 1];
    j + 2
  }

  /** Position of the first '>' in a string that closes. */
  function CloseIndex(x: string): (j: nat)
    requires Closes(x)
    ensures j < |x| && x[j] == '>' && '<' !in x[..j + 1] && '>' !in x[..j]
  {
    if x[0] == '>' then 0
    else
      var j := CloseIndex(x[1..]);
      assert x[..j + 2] == [x[0]] + x[1..][..j + 1];
      j + 1
  }

  /** Every match found in a bracketed string is a bracket. */
  lemma {:induction false} FindAllBrackets(s: string, prefix: string)
    requires Bracketed(s) && prefix != [] && prefix[0] == '<' && '>' !in prefix
    ensures forall k :: 0 <= k < |FindAll(s, prefix)| ==> Bracket(FindAll(s, prefix)[k])
    decreases |s|
  {
    if s != [] {
      match TokenAt(s, prefix)
      case Some(n) =>
        TokenIsBracket(s, prefix, n);
        BracketedSuffix(s, n);
        FindAllBrackets(s[n..], prefix);
      case None =>
        BracketedSuffix(s, 1);
        FindAllBrackets(s[1..], prefix);
    }
  }
}
