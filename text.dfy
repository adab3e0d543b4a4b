/** The string operations of the .NET base library that the program relies on:
    `String.Split`, `String.Join`, `Enumerable.Last`, and comparisons that
    ignore case. Case folding is ASCII folding; culture-specific rules are not
    modelled. */
module Text {
  import opened Wrappers

  /** Position of the first occurrence of `c` in `s`. */
  function IndexOf(s: string, c: char): (i: nat)
    requires c in s
    ensures i < |s| && s[i] == c
    ensures c !in s[..i]
  {
    if s[0] == c then 0 else 1 + IndexOf(s[1..], c)
  }

  /** `s.Split(sep)`: the pieces between separators, empty pieces kept. */
  function Split(s: string, sep: char): (parts: seq<string>)
    ensures |parts| >= 1
    ensures forall p | p in parts :: sep !in p
    decreases |s|
  {
    if sep !in s then [s]
    else
      var i := IndexOf(s, sep);
      [s[..i]] + Split(s[i + 1..], sep)
  }

  /** `s.Split(new[] { sep }, 2)`: the text before the first separator and,
      when there is one, everything after it. */
  function SplitFirst(s: string, sep: char): (parts: seq<string>)
    ensures 1 <= |parts| <= 2
    ensures |parts| == 2 <==> sep in s
    ensures sep !in parts[0]
    ensures (if |parts| == 2 then parts[0] + [sep] + parts[1] else parts[0]) == s
  {
    if sep in s then
      var i := IndexOf(s, sep);
      assert s[..i] + [sep] + s[i + 1..] == s;
      [s[..i], s[i + 1..]]
    else [s]
  }

  /** `String.Join(sep, parts)`. */
  function Join(parts: seq<string>, sep: string): string
  {
    if |parts| == 0 then ""
    else if |parts| == 1 then parts[0]
    else parts[0] + sep + Join(parts[1..], sep)
  }

  /** `Enumerable.Last`. */
  function Last<T>(xs: seq<T>): T
    requires |xs| > 0
  {
    xs[|xs| - 1]
  }

  /** `v` is what follows the last `sep` in `s`, or all of `s` when `s` has
      no `sep`. */
  predicate IsLastSegment(v: string, s: string, sep: char)
  {
    && sep !in v
    && |v| <= |s|
    && v == s[|s| - |v|..]
    && (|v| < |s| ==> s[|s| - |v| - 1] == sep)
  }

  /** Joining one more leading piece. */
  lemma JoinCons(x: string, xs: seq<string>, sep: string)
    requires |xs| >= 1
    ensures Join([x] + xs, sep) == x + sep + Join(xs, sep)
  {
    assert ([x] + xs)[1..] == xs;
  }

  /** Joining one more trailing piece. */
  lemma {:induction false} JoinSnoc(xs: seq<string>, x: string, sep: string)
    requires |xs| >= 1
    ensures Join(xs + [x], sep) == Join(xs, sep) + sep + x
  {
    if |xs| == 1 {
      JoinCons(xs[0], [x], sep);
      assert xs + [x] == [xs[0]] + [x];
    } else {
      assert xs + [x] == [xs[0]] + (xs[1..] + [x]);
      JoinCons(xs[0], xs[1..] + [x], sep);
      JoinSnoc(xs[1..], x, sep);
      JoinCons(xs[0], xs[1..], sep);
      assert [xs[0]] + xs[1..] == xs;
    }
  }

  /** A split at a separator is the piece before it followed by the split
      of the rest. */
  lemma SplitCons(s: string, sep: char)
    requires sep in s
    ensures var i := IndexOf(s, sep);
      Split(s, sep) == [s[..i]] + Split(s[i + 1..], sep)
  {
  }

  /** Rejoining the pieces of a split with the separator gives back the
      original string. */
  lemma {:induction false} JoinSplit(s: string, sep: char)
    ensures Join(Split(s, sep), [sep]) == s
    decreases |s|
  {
    if sep in s {
      var i := IndexOf(s, sep);
      var t := s[i + 1..];
      SplitCons(s, sep);
      JoinSplit(t, sep);
      JoinCons(s[..i], Split(t, sep), [sep]);
      assert s[..i] + [sep] + t == s;
    }
  }

  /** The first separator of `p + [sep] + t` is the one after `p` when `p`
      has none. */
  lemma IndexOfAfter(p: string, sep: char, t: string)
    requires sep !in p
    ensures IndexOf(p + [sep] + t, sep) == |p|
  {
    var s := p + [sep] + t;
    var i := IndexOf(s, sep);
    assert s[..|p|] == p;
    assert s[|p|] == sep;
  }

  /** Splitting a separator-free piece followed by the separator gives the
      piece, then the split of the rest. */
  lemma SplitAfterFirst(p: string, sep: char, rest: string)
    requires sep !in p
    ensures Split(p + [sep] + rest, sep) == [p] + Split(rest, sep)
  {
    var s := p + [sep] + rest;
    IndexOfAfter(p, sep, rest);
    SplitCons(s, sep);
    assert s[..|p|] == p;
    assert s[|p| + 1..] == rest;
  }

  /** Splitting a join of separator-free pieces gives back the pieces. */
  lemma {:induction false} SplitJoin(parts: seq<string>, sep: char)
    requires |parts| >= 1
    requires forall p | p in parts :: sep !in p
    ensures Split(Join(parts, [sep]), sep) == parts
  {
    if |parts| > 1 {
      assert parts[0] in parts;
      assert [parts[0]] + parts[1..] == parts;
      JoinCons(parts[0], parts[1..], [sep]);
      SplitAfterFirst(parts[0], sep, Join(parts[1..], [sep]));
      SplitJoin(parts[1..], sep);
    }
  }

  /** A suffix of a suffix is a suffix. */
  lemma SuffixOfSuffix(s: string, k: nat, m: nat)
    requires k <= |s| && m <= |s| - k
    ensures s[k..][|s| - k - m..] == s[|s| - m..]
  {
  }

  /** The last of a longer sequence is the last of its tail. */
  lemma LastCons<T>(x: T, xs: seq<T>)
    requires |xs| >= 1
    ensures Last([x] + xs) == Last(xs)
  {
  }

  /** The last segment of what follows a separator is the last segment of
      the whole. */
  lemma LastSegmentExtend(v: string, s: string, i: nat, sep: char)
    requires i < |s| && s[i] == sep
    requires IsLastSegment(v, s[i + 1..], sep)
    ensures IsLastSegment(v, s, sep)
  {
    var t := s[i + 1..];
    SuffixOfSuffix(s, i + 1, |v|);
    if |v| < |t| {
      assert s[|s| - |v| - 1] == t[|t| - |v| - 1];
    }
  }

  /** The last piece of a split is the last segment of the string. */
  lemma {:induction false} LastOfSplit(s: string, sep: char)
    ensures IsLastSegment(Last(Split(s, sep)), s, sep)
    decreases |s|
  {
    if sep in s {
      var i := IndexOf(s, sep);
      SplitCons(s, sep);
      LastOfSplit(s[i + 1..], sep);
      LastCons(s[..i], Split(s[i + 1..], sep));
      LastSegmentExtend(Last(Split(s[i + 1..], sep)), s, i, sep);
    } else {
      assert Split(s, sep) == [s];
      assert s[|s| - |s|..] == s;
    }
  }

  /** At most one string is the last segment of `s`. */
  lemma LastSegmentUnique(v1: string, v2: string, s: string, sep: char)
    requires IsLastSegment(v1, s, sep) && IsLastSegment(v2, s, sep)
    ensures v1 == v2
  {
  }

  /** ASCII case folding of one character. */
  function Fold(c: char): char
  {
    if 'A' <= c <= 'Z' then (c as int + 32) as char else c
  }

  /** A string with no ASCII capital letter. */
  predicate NoCapitals(s: string)
  {
    forall i :: 0 <= i < |s| ==> !('A' <= s[i] <= 'Z')
  }

  /** The comparison key of the ignore-case comparisons: every ASCII capital
      replaced by its small letter, everything else kept in place. */
  function Lower(s: string): (r: string)
    ensures |r| == |s|
    ensures forall i :: 0 <= i < |s| ==> r[i] == Fold(s[i])
    ensures NoCapitals(r)
    ensures NoCapitals(s) ==> r == s
  {
    seq(|s|, i requires 0 <= i < |s| => Fold(s[i]))
  }

  /** Folding twice folds once. */
  lemma LowerIdempotent(s: string)
    ensures Lower(Lower(s)) == Lower(s)
  {
  }

  /** `string.Equals(a, b, ...IgnoreCase)` on two non-null strings. */
  predicate EqualsIgnoreCase(a: string, b: string)
  {
    Lower(a) == Lower(b)
  }

  /** The ignore-case comparison is an equivalence, and every string is
      equal ignoring case to its folded form. */
  lemma EqualsIgnoreCaseEquivalence(a: string, b: string, c: string)
    ensures EqualsIgnoreCase(a, a)
    ensures EqualsIgnoreCase(a, b) ==> EqualsIgnoreCase(b, a)
    ensures EqualsIgnoreCase(a, b) && EqualsIgnoreCase(b, c) ==> EqualsIgnoreCase(a, c)
    ensures EqualsIgnoreCase(a, Lower(a))
  {
  }

  /** `string.Equals(a, b, ...IgnoreCase)` where either may be null: two nulls
      are equal, a null and a string are not. */
  predicate EqualsIgnoreCaseOpt(a: Option<string>, b: Option<string>)
  {
    || (a.None? && b.None?)
    || (a.Some? && b.Some? && EqualsIgnoreCase(a.value, b.value))
  }

  /** `s.StartsWith(prefix, ...IgnoreCase)`. */
  predicate StartsWithIgnoreCase(s: string, prefix: string)
  {
    |prefix| <= |s| && EqualsIgnoreCase(s[..|prefix|], prefix)
  }

  /** `string.IsNullOrEmpty`. */
  predicate IsNullOrEmpty(s: Option<string>)
  {
    s.None? || s.value == ""
  }

  /** String interpolation renders null as the empty string. */
  function Show(s: Option<string>): string
  {
    if s.Some? then s.value else ""
  }
}
