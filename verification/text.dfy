/**
 * The string primitives the script and the page rely on: `trim`, `toLowerCase`,
 * `startsWith`, `includes` and `split` on one separator character.
 *
 * Whitespace is the ASCII part of JavaScript's white-space and line-terminator
 * classes, and lower-casing maps only `A`..`Z`.
 */
module Text {

  /** ASCII white space as `String.prototype.trim` and the regular-expression class `\s` see it. */
  predicate IsSpace(c: char) {
    c == ' ' || c == '\t' || c == '\n' || c == '\r' || c == '\U{B}' || c == '\U{C}'
  }

  /** A slice of a text that lacks `c` lacks `c` too. */
  lemma SliceAvoids(s: string, i: int, j: int, c: char)
    requires 0 <= i <= j <= |s| && c !in s
    ensures c !in s[i..j]
  {
  }

  /** `s` without its leading white space. */
  function TrimStart(s: string): (r: string)
    ensures |r| <= |s| && r == s[|s| - |r|..]
    ensures |r| == 0 || !IsSpace(r[0])
    ensures forall i :: 0 <= i < |s| - |r| ==> IsSpace(s[i])
    decreases |s|
  {
    if |s| > 0 && IsSpace(s[0]) then TrimStart(s[1..]) else s
  }

  /** `s` without its trailing white space. */
  function TrimEnd(s: string): (r: string)
    ensures |r| <= |s| && r == s[..|r|]
    ensures |r| == 0 || !IsSpace(r[|r| - 1])
    ensures forall i :: |r| <= i < |s| ==> IsSpace(s[i])
    decreases |s|
  {
    if |s| > 0 && IsSpace(s[|s| - 1]) then TrimEnd(s[..|s| - 1]) else s
  }

  /** JavaScript's `s.trim()`: the longest infix of `s` that neither starts nor ends with white space. */
  function Trim(s: string): (r: string)
    ensures |r| == 0 || (!IsSpace(r[0]) && !IsSpace(r[|r| - 1]))
  {
    TrimEnd(TrimStart(s))
  }

  /** Everything of `s` before `i` and from `j` on is white space. */
  predicate SpaceAround(s: string, i: int, j: int) {
    && 0 <= i <= j <= |s|
    && (forall k :: 0 <= k < i ==> IsSpace(s[k]))
    && (forall k :: j <= k < |s| ==> IsSpace(s[k]))
  }

  /**
   * `trim` removes white space from the two ends and nothing else: the result is
   * the infix of `s` between a run of leading and a run of trailing white space.
   */
  lemma TrimIsInfix(s: string)
    ensures exists i, j :: SpaceAround(s, i, j) && Trim(s) == s[i..j]
  {
    var t := TrimStart(s);
    var u := TrimEnd(t);
    InfixOfParts(s, t, u);
    assert Trim(s) == u;
  }

  /**
   * A prefix `u` of a suffix `t` of `s`, where what the suffix drops and what the
   * prefix drops is white space, is an infix of `s` with white space around it.
   */
  lemma InfixOfParts(s: string, t: string, u: string)
    requires |t| <= |s| && t == s[|s| - |t|..]
    requires |u| <= |t| && u == t[..|u|]
    requires forall k :: 0 <= k < |s| - |t| ==> IsSpace(s[k])
    requires forall k :: |u| <= k < |t| ==> IsSpace(t[k])
    ensures SpaceAround(s, |s| - |t|, |s| - |t| + |u|) && u == s[|s| - |t|..|s| - |t| + |u|]
  {
    var i := |s| - |t|;
    forall k | i + |u| <= k < |s|
      ensures IsSpace(s[k])
    {
      assert s[k] == t[k - i];
    }
  }

  /** Trimming only removes characters. */
  lemma TrimAvoids(s: string, c: char)
    requires c !in s
    ensures c !in Trim(s)
  {
    var t := TrimStart(s);
    SliceAvoids(s, |s| - |t|, |s|, c);
    SliceAvoids(t, 0, |TrimEnd(t)|, c);
  }

  /** The only suffix of `s` that starts with a non-space and follows only spaces is `TrimStart(s)`. */
  lemma TrimStartUnique(s: string, k: nat)
    requires k <= |s|
    requires forall i :: 0 <= i < k ==> IsSpace(s[i])
    requires k == |s| || !IsSpace(s[k])
    ensures TrimStart(s) == s[k..]
  {
  }

  /** The only prefix of `s` that ends with a non-space and precedes only spaces is `TrimEnd(s)`. */
  lemma TrimEndUnique(s: string, k: nat)
    requires k <= |s|
    requires forall i :: k <= i < |s| ==> IsSpace(s[i])
    requires k == 0 || !IsSpace(s[k - 1])
    ensures TrimEnd(s) == s[..k]
  {
  }

  /** A string with no white space at either end is its own trim. */
  lemma TrimNoEdges(s: string)
    requires |s| == 0 || (!IsSpace(s[0]) && !IsSpace(s[|s| - 1]))
    ensures Trim(s) == s
  {
    TrimStartUnique(s, 0);
    assert TrimStart(s) == s;
    TrimEndUnique(s, |s|);
  }

  /** `trim` is idempotent. */
  lemma TrimIdempotent(s: string)
    ensures Trim(Trim(s)) == Trim(s)
  {
    TrimNoEdges(Trim(s));
  }

  /** JavaScript's `toLowerCase` on one ASCII character. */
  function LowerChar(c: char): char {
    if 'A' <= c <= 'Z' then (c as int + 32) as char else c
  }

  /** JavaScript's `s.toLowerCase()`, restricted to ASCII letters. */
  function Lower(s: string): string {
    seq(|s|, i requires 0 <= i < |s| => LowerChar(s[i]))
  }

  /** The positions of `Lower`, as plain facts for proofs that need them. */
  lemma LowerAt(s: string)
    ensures |Lower(s)| == |s|
    ensures forall i :: 0 <= i < |s| ==> Lower(s)[i] == LowerChar(s[i])
  {
  }

  /** Lower-casing commutes with slicing. */
  lemma LowerSlice(s: string, i: int, j: int)
    requires 0 <= i <= j <= |s|
    ensures Lower(s[i..j]) == Lower(s)[i..j]
  {
  }

  /** Lower-casing neither creates nor removes white space. */
  lemma LowerCharSpace(c: char)
    ensures IsSpace(LowerChar(c)) == IsSpace(c)
  {
  }

  /** Lower-casing keeps a run of white space white space. */
  lemma LowerKeepsSpaces(s: string, i: nat, j: nat)
    requires i <= j <= |s|
    requires forall k :: i <= k < j ==> IsSpace(s[k])
    ensures forall k :: i <= k < j ==> IsSpace(Lower(s)[k])
  {
    forall k | i <= k < j
      ensures IsSpace(Lower(s)[k])
    {
      LowerCharSpace(s[k]);
    }
  }

  /** Lower-casing commutes with dropping leading white space. */
  lemma LowerTrimStartCommute(s: string)
    ensures TrimStart(Lower(s)) == Lower(TrimStart(s))
  {
    var a := |s| - |TrimStart(s)|;
    LowerAt(s);
    LowerAt(TrimStart(s));
    TrimStartLowered(s, Lower(s), a);
    SuffixLowered(s, Lower(s), TrimStart(s), Lower(TrimStart(s)), a);
  }

  /** A pointwise lower-cased copy `l` of `s` loses as much leading white space as `s`. */
  lemma TrimStartLowered(s: string, l: string, a: int)
    requires |l| == |s| && forall k :: 0 <= k < |s| ==> l[k] == LowerChar(s[k])
    requires a == |s| - |TrimStart(s)|
    ensures TrimStart(l) == l[a..]
  {
    forall k | 0 <= k < a
      ensures IsSpace(l[k])
    {
      LowerCharSpace(s[k]);
    }
    if a < |s| {
      LowerCharSpace(s[a]);
    }
    TrimStartUnique(l, a);
  }

  /** The lower-cased copy of a suffix is the same suffix of the lower-cased copy. */
  lemma SuffixLowered(s: string, l: string, t: string, lt: string, a: int)
    requires |l| == |s| && forall k :: 0 <= k < |s| ==> l[k] == LowerChar(s[k])
    requires 0 <= a <= |s| && t == s[a..]
    requires |lt| == |t| && forall k :: 0 <= k < |t| ==> lt[k] == LowerChar(t[k])
    ensures lt == l[a..]
  {
    assert forall k :: 0 <= k < |t| ==> lt[k] == l[a..][k];
  }

  /** Lower-casing commutes with dropping trailing white space. */
  lemma LowerTrimEndCommute(t: string)
    ensures TrimEnd(Lower(t)) == Lower(TrimEnd(t))
  {
    var b := |TrimEnd(t)|;
    LowerKeepsSpaces(t, b, |t|);
    if b > 0 {
      LowerCharSpace(t[b - 1]);
    }
    TrimEndUnique(Lower(t), b);
    LowerSlice(t, 0, b);
  }

  /** `toLowerCase().trim()` and `trim().toLowerCase()` agree. */
  lemma LowerTrimCommute(s: string)
    ensures Trim(Lower(s)) == Lower(Trim(s))
  {
    LowerTrimStartCommute(s);
    LowerTrimEndCommute(TrimStart(s));
  }

  /** JavaScript's `s.startsWith(p)`. */
  predicate StartsWith(s: string, p: string) {
    |p| <= |s| && s[..|p|] == p
  }

  /** JavaScript's `s.includes(p)`: `p` occurs in `s` at some position. */
  predicate Contains(s: string, p: string)
    decreases |s|
  {
    StartsWith(s, p) || (|s| > 0 && Contains(s[1..], p))
  }

  /**
   * JavaScript's `s.split(c)`: the pieces between occurrences of `c`.
   * There is always at least one piece; no piece contains `c`; joining them
   * back with `c` gives `s`.
   */
  function Split(s: string, c: char): (r: seq<string>)
    ensures |r| >= 1
    ensures forall i :: 0 <= i < |r| ==> c !in r[i]
    decreases |s|
  {
    if |s| == 0 then [""]
    else if s[0] == c then [""] + Split(s[1..], c)
    else
      var rest := Split(s[1..], c);
      [[s[0]] + rest[0]] + rest[1..]
  }

  /** The pieces of a text that lacks `d` lack `d` too. */
  lemma {:induction false} SplitAvoids(s: string, c: char, d: char)
    requires d !in s
    ensures forall i :: 0 <= i < |Split(s, c)| ==> d !in Split(s, c)[i]
    decreases |s|
  {
    if |s| > 0 {
      SliceAvoids(s, 1, |s|, d);
      SplitAvoids(s[1..], c, d);
    }
  }

  /** JavaScript's `parts.join(c)`. */
  function Join(parts: seq<string>, c: char): string
    decreases |parts|
  {
    if |parts| == 0 then ""
    else if |parts| == 1 then parts[0]
    else parts[0] + [c] + Join(parts[1..], c)
  }

  /** Joining a list with a known first piece. */
  lemma JoinCons(p: string, rest: seq<string>, c: char)
    requires |rest| >= 1
    ensures Join([p] + rest, c) == p + [c] + Join(rest, c)
  {
    assert ([p] + rest)[1..] == rest;
  }

  /** The step of `JoinSplit` for a text that starts with the separator. */
  lemma JoinSplitSeparator(t: string, c: char)
    requires Join(Split(t, c), c) == t
    ensures Join(Split([c] + t, c), c) == [c] + t
  {
    SplitConsSeparator(t, c);
    JoinCons("", Split(t, c), c);
    assert "" + [c] + t == [c] + t;
  }

  /** Extending the first piece extends the joined text. */
  lemma JoinExtendFirst(x: char, rest: seq<string>, c: char)
    requires |rest| >= 1
    ensures Join([[x] + rest[0]] + rest[1..], c) == [x] + Join(rest, c)
  {
    var first := [x] + rest[0];
    if |rest| == 1 {
      assert [first] + rest[1..] == [first];
    } else {
      var tail := rest[1..];
      assert rest == [rest[0]] + tail;
      JoinCons(rest[0], tail, c);
      JoinCons(first, tail, c);
      assert first + [c] + Join(tail, c) == [x] + (rest[0] + [c] + Join(tail, c));
    }
  }

  /** The step of `JoinSplit` for a text that starts with another character. */
  lemma JoinSplitOther(x: char, t: string, c: char)
    requires x != c
    requires Join(Split(t, c), c) == t
    ensures Join(Split([x] + t, c), c) == [x] + t
  {
    SplitConsOther(x, t, c);
    JoinExtendFirst(x, Split(t, c), c);
  }

  /** Joining the pieces of a split gives back the original text. */
  lemma {:induction false} JoinSplit(s: string, c: char)
    ensures Join(Split(s, c), c) == s
    decreases |s|
  {
    if |s| > 0 {
      var t := s[1..];
      assert s == [s[0]] + t;
      JoinSplit(t, c);
      if s[0] == c {
        JoinSplitSeparator(t, c);
      } else {
        JoinSplitOther(s[0], t, c);
      }
    }
  }

  /** A text that starts with the separator starts with an empty piece. */
  lemma SplitConsSeparator(t: string, c: char)
    ensures Split([c] + t, c) == [""] + Split(t, c)
  {
    assert ([c] + t)[1..] == t;
  }

  /** A text that starts with another character extends its first piece. */
  lemma SplitConsOther(x: char, t: string, c: char)
    requires x != c
    ensures Split([x] + t, c) == [[x] + Split(t, c)[0]] + Split(t, c)[1..]
  {
    assert ([x] + t)[1..] == t;
  }

  /** The step of `SplitAppend` for a text that starts with the separator. */
  lemma SplitAppendSeparator(t: string, u: string, b: string, c: char)
    requires Split(u, c) == Split(t, c) + Split(b, c)
    ensures Split([c] + u, c) == Split([c] + t, c) + Split(b, c)
  {
    SplitConsSeparator(u, c);
    SplitConsSeparator(t, c);
  }

  /** Extending the first piece of `l + r` is extending the first piece of `l`. */
  lemma ConsPieces(x: char, l: seq<string>, r: seq<string>, lr: seq<string>)
    requires |l| >= 1 && lr == l + r
    ensures [[x] + lr[0]] + lr[1..] == ([[x] + l[0]] + l[1..]) + r
  {
    assert lr[1..] == l[1..] + r;
  }

  /** The step of `SplitAppend` for a text that starts with another character. */
  lemma SplitAppendOther(x: char, t: string, u: string, b: string, c: char)
    requires x != c
    requires Split(u, c) == Split(t, c) + Split(b, c)
    ensures Split([x] + u, c) == Split([x] + t, c) + Split(b, c)
  {
    SplitConsOther(x, u, c);
    SplitConsOther(x, t, c);
    ConsPieces(x, Split(t, c), Split(b, c), Split(u, c));
  }

  /** Splitting at a separator splits the pieces on each side independently. */
  lemma {:induction false} SplitAppend(a: string, b: string, c: char)
    ensures Split(a + [c] + b, c) == Split(a, c) + Split(b, c)
    decreases |a|
  {
    if |a| == 0 {
      assert a + [c] + b == [c] + b;
      SplitConsSeparator(b, c);
    } else {
      var t := a[1..];
      var u := t + [c] + b;
      assert a == [a[0]] + t;
      assert a + [c] + b == [a[0]] + u;
      SplitAppend(t, b, c);
      if a[0] == c {
        SplitAppendSeparator(t, u, b, c);
      } else {
        SplitAppendOther(a[0], t, u, b, c);
      }
    }
  }

  /** A text without the separator is a single piece. */
  lemma {:induction false} SplitNoSeparator(s: string, c: char)
    requires c !in s
    ensures Split(s, c) == [s]
    decreases |s|
  {
    if |s| > 0 {
      assert s[0] in s;
      assert forall d :: d in s[1..] ==> d in s;
      SplitNoSeparator(s[1..], c);
      assert [s[0]] + s[1..] == s;
    }
  }

  /** Splitting pieces joined with the separator gives the pieces back. */
  lemma {:induction false} SplitJoin(parts: seq<string>, c: char)
    requires |parts| >= 1
    requires forall i :: 0 <= i < |parts| ==> c !in parts[i]
    ensures Split(Join(parts, c), c) == parts
    decreases |parts|
  {
    if |parts| == 1 {
      SplitNoSeparator(parts[0], c);
    } else {
      SplitJoin(parts[1..], c);
      SplitNoSeparator(parts[0], c);
      SplitAppend(parts[0], Join(parts[1..], c), c);
      assert [parts[0]] + parts[1..] == parts;
    }
  }
}
