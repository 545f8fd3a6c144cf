/**
 * The parts of Go's `strings` package that the client uses, on strings modelled
 * as sequences of characters: `Split` with a one-character separator, `Join`,
 * `Replace(s, old, new, -1)` and `TrimSpace` with Go's notion of white space.
 */
module GoStrings {

  /** Position of the first `c` in `s`, or `|s|` when `s` has none. */
  function IndexOf(s: string, c: char): (i: nat)
    ensures i <= |s|
    ensures i < |s| ==> s[i] == c
    ensures c !in s[..i]
  {
    if s == [] then 0
    else if s[0] == c then 0
    else
      var j := IndexOf(s[1..], c);
      assert s[1..][..j] == s[1..j + 1];
      1 + j
  }

  /**
   * `strings.Split(s, string(sep))`: the pieces of `s` between the occurrences
   * of `sep`, in order; there is always at least one piece ("" gives [""]).
   */
  function Split(s: string, sep: char): (parts: seq<string>)
    ensures |parts| >= 1
    ensures forall k :: 0 <= k < |parts| ==> sep !in parts[k]
    decreases |s|
  {
    var i := IndexOf(s, sep);
    if i == |s| then [s] else [s[..i]] + Split(s[i + 1..], sep)
  }

  /** `strings.Join(parts, sep)`: the empty list gives "". */
  function Join(parts: seq<string>, sep: string): string
  {
    if |parts| == 0 then []
    else if |parts| == 1 then parts[0]
    else parts[0] + sep + Join(parts[1..], sep)
  }

  /** Joining the pieces of a split with the same separator gives back the string. */
  lemma {:induction false} JoinSplit(s: string, sep: char)
    ensures Join(Split(s, sep), [sep]) == s
    decreases |s|
  {
    var i := IndexOf(s, sep);
    if i < |s| {
      var rest := s[i + 1..];
      JoinSplit(rest, sep);
      var tail := Split(rest, sep);
      assert Split(s, sep) == [s[..i]] + tail;
      assert ([s[..i]] + tail)[1..] == tail;
      assert s == s[..i] + [sep] + rest;
    }
  }

  /** Splitting a join of separator-free pieces gives back the pieces. */
  lemma {:induction false} SplitJoin(parts: seq<string>, sep: char)
    requires |parts| >= 1
    requires forall k :: 0 <= k < |parts| ==> sep !in parts[k]
    ensures Split(Join(parts, [sep]), sep) == parts
  {
    var p := parts[0];
    if |parts| == 1 {
      IndexAbsent(p, sep);
    } else {
      var rest := Join(parts[1..], [sep]);
      var s := p + [sep] + rest;
      IndexAfter(p, sep, rest);
      assert s[..|p|] == p;
      assert s[|p| + 1..] == rest;
      SplitJoin(parts[1..], sep);
      assert parts == [p] + parts[1..];
    }
  }

  /** The index of a character that does not occur is the length. */
  lemma IndexAbsent(s: string, c: char)
    requires c !in s
    ensures IndexOf(s, c) == |s|
  {
    assert s[..|s|] == s;
  }

  /** The first `c` of `p + [c] + q`, when `p` has no `c`, is right after `p`. */
  lemma {:induction false} IndexAfter(p: string, c: char, q: string)
    requires c !in p
    ensures IndexOf(p + [c] + q, c) == |p|
  {
    if p != [] {
      assert (p + [c] + q)[1..] == p[1..] + [c] + q;
      IndexAfter(p[1..], c, q);
    }
  }

  /** Only the empty string splits into the single empty piece. */
  lemma SplitSentinel(s: string, sep: char)
    ensures Split(s, sep) == [""] <==> s == ""
  {
    if s == "" {
      assert Split(s, sep) == [""];
    } else if Split(s, sep) == [""] {
      JoinSplit(s, sep);
    }
  }

  /** Appending one more piece to a non-empty join adds the separator and the piece. */
  lemma {:induction false} JoinAppend(parts: seq<string>, x: string, sep: string)
    requires |parts| >= 1
    ensures Join(parts + [x], sep) == Join(parts, sep) + sep + x
  {
    if |parts| > 1 {
      assert (parts + [x])[1..] == parts[1..] + [x];
      JoinAppend(parts[1..], x, sep);
    }
  }

  /** Every character of every piece of a split occurs in the string split. */
  lemma {:induction false} SplitWithin(s: string, sep: char, k: nat, c: char)
    requires k < |Split(s, sep)| && c in Split(s, sep)[k]
    ensures c in s
    decreases |s|
  {
    var i := IndexOf(s, sep);
    if i < |s| {
      if k == 0 {
        assert c in s[..i];
      } else {
        SplitWithin(s[i + 1..], sep, k - 1, c);
        assert c in s[i + 1..];
      }
    }
  }

  /**
   * `strings.Replace(s, old, new, -1)` (here `target` and `with`): every
   * non-overlapping occurrence of `target`, left to right, becomes `with`;
   * an empty `target` puts `with` before every character and at the end.
   */
  function ReplaceAll(s: string, target: string, with: string): string
    decreases |s|
  {
    if target == [] then
      with + (if s == [] then [] else [s[0]] + ReplaceAll(s[1..], target, with))
    else if |s| < |target| then s
    else if s[..|target|] == target then with + ReplaceAll(s[|target|..], target, with)
    else [s[0]] + ReplaceAll(s[1..], target, with)
  }

  /** A stretch without the first character of `target` is copied unchanged. */
  lemma {:induction false} ReplaceAllSkips(x: string, y: string, target: string, with: string)
    requires target != [] && target[0] !in x
    ensures ReplaceAll(x + y, target, with) == x + ReplaceAll(y, target, with)
  {
    if x != [] {
      assert (x + y)[0] == x[0];
      assert (x + y)[1..] == x[1..] + y;
      if |x + y| >= |target| {
        assert (x + y)[..|target|][0] != target[0];
        ReplaceAllSkips(x[1..], y, target, with);
        calc {
          ReplaceAll(x + y, target, with);
          [x[0]] + ReplaceAll(x[1..] + y, target, with);
          [x[0]] + (x[1..] + ReplaceAll(y, target, with));
          { assert [x[0]] + x[1..] == x; }
          x + ReplaceAll(y, target, with);
        }
      } else {
        assert ReplaceAll(y, target, with) == y;
      }
    } else {
      assert x + y == y;
    }
  }

  /** Without an occurrence of `target` at the front, the first character is copied. */
  lemma ReplaceAllMiss(s: string, target: string, with: string)
    requires s != [] && target != []
    requires !(|target| <= |s| && s[..|target|] == target)
    ensures ReplaceAll(s, target, with) == [s[0]] + ReplaceAll(s[1..], target, with)
  {
    if |s| < |target| {
      assert ReplaceAll(s[1..], target, with) == s[1..];
      assert s == [s[0]] + s[1..];
    }
  }

  /** An occurrence of `target` at the front is replaced. */
  lemma ReplaceAllHit(y: string, target: string, with: string)
    requires target != []
    ensures ReplaceAll(target + y, target, with) == with + ReplaceAll(y, target, with)
  {
    assert (target + y)[..|target|] == target;
    assert (target + y)[|target|..] == y;
  }

  /** Go's `unicode.IsSpace`: the Latin-1 spaces and Unicode's other White_Space characters. */
  predicate IsSpace(c: char)
  {
    c == '\t' || c == '\n' || c == '\U{0B}' || c == '\U{0C}' || c == '\r' || c == ' '
    || c == '\U{85}' || c == '\U{A0}' || c == '\U{1680}'
    || ('\U{2000}' <= c <= '\U{200A}')
    || c == '\U{2028}' || c == '\U{2029}' || c == '\U{202F}' || c == '\U{205F}' || c == '\U{3000}'
  }

  /** `s` without its leading white space. */
  function TrimLeft(s: string): (r: string)
    ensures |r| <= |s| && r == s[|s| - |r|..]
    ensures r == [] || !IsSpace(r[0])
    ensures forall k :: 0 <= k < |s| - |r| ==> IsSpace(s[k])
  {
    if s != [] && IsSpace(s[0]) then TrimLeft(s[1..]) else s
  }

  /** `s` without its trailing white space. */
  function TrimRight(s: string): (r: string)
    ensures |r| <= |s| && r == s[..|r|]
    ensures r == [] || !IsSpace(r[|r| - 1])
    ensures forall k :: |r| <= k < |s| ==> IsSpace(s[k])
  {
    if s != [] && IsSpace(s[|s| - 1]) then TrimRight(s[..|s| - 1]) else s
  }

  /** `strings.TrimSpace`. */
  function TrimSpace(s: string): string
  {
    TrimRight(TrimLeft(s))
  }

  predicate IsBlank(s: string)
  {
    forall k :: 0 <= k < |s| ==> IsSpace(s[k])
  }

  /** TrimSpace leaves nothing exactly when the string is all white space. */
  lemma TrimSpaceEmpty(s: string)
    ensures TrimSpace(s) == [] <==> IsBlank(s)
  {
  }

  /** A string with no white space at either end is its own TrimSpace. */
  lemma TrimSpaceTrimmed(s: string)
    requires s == [] || (!IsSpace(s[0]) && !IsSpace(s[|s| - 1]))
    ensures TrimSpace(s) == s
  {
  }

  /** TrimSpace is idempotent. */
  lemma TrimSpaceIdempotent(s: string)
    ensures TrimSpace(TrimSpace(s)) == TrimSpace(s)
  {
    var l := TrimLeft(s);
    var r := TrimRight(l);
    if r != [] {
      assert r[0] == l[0];
    }
    TrimSpaceTrimmed(r);
  }
}
