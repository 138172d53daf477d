/** Python `str` operations over `seq<char>`: `in`, `replace`, `lower` and `strip`, which the bot
    uses itself, and `find`, `rfind`, `split` and `join`, which the modelled `urllib.parse` uses. */
module Text {

  /** Python's `str.isspace` for one character: the characters that `\s` matches in a
      `str` pattern and that `str.strip()` removes. */
  predicate IsSpace(c: char) {
    || c == ' '
    || ('\t' <= c <= '\r')
    || ('\U{1c}' <= c <= '\U{1f}')
    || c == '\U{85}' || c == '\U{a0}' || c == '\U{1680}'
    || ('\U{2000}' <= c <= '\U{200a}')
    || c == '\U{2028}' || c == '\U{2029}' || c == '\U{202f}' || c == '\U{205f}' || c == '\U{3000}'
  }

  predicate NoSpace(s: string) {
    forall i :: 0 <= i < |s| ==> !IsSpace(s[i])
  }

  /** `s.startswith(p)`. */
  predicate StartsWith(s: string, p: string) {
    |p| <= |s| && s[..|p|] == p
  }

  /** `p in s` for strings: `p` occurs as a contiguous piece of `s`. */
  predicate Contains(s: string, p: string)
    decreases |s|
  {
    StartsWith(s, p) || (s != [] && Contains(s[1..], p))
  }

  /** `p` occurs in `s` starting at index `i`. */
  predicate OccursAt(s: string, p: string, i: int) {
    0 <= i <= |s| - |p| && s[i..i + |p|] == p
  }

  lemma ConcatAssoc3(a: string, b: string, c: string)
    ensures a + (b + c) == a + b + c
  {
  }

  lemma ConcatAssoc(a: string, b: string, c: string, d: string)
    ensures a + (b + c) + d == (a + b) + (c + d)
  {
  }

  /** The recursive definition agrees with "some index holds an occurrence". */
  lemma {:induction false} ContainsAt(s: string, p: string)
    ensures Contains(s, p) <==> exists i :: OccursAt(s, p, i)
    decreases |s|
  {
    if s != [] {
      ContainsAt(s[1..], p);
      if StartsWith(s, p) {
        assert OccursAt(s, p, 0);
      }
      if Contains(s[1..], p) {
        var i :| OccursAt(s[1..], p, i);
        assert s[1..][i..i + |p|] == s[i + 1..i + 1 + |p|];
        assert OccursAt(s, p, i + 1);
      }
      if !StartsWith(s, p) && exists i :: OccursAt(s, p, i) {
        var i :| OccursAt(s, p, i);
        assert i != 0;
        assert s[1..][i - 1..i - 1 + |p|] == s[i..i + |p|];
        assert OccursAt(s[1..], p, i - 1);
      }
    } else {
      assert StartsWith(s, p) <==> p == [];
      if p == [] {
        assert OccursAt(s, p, 0);
      }
      if exists i :: OccursAt(s, p, i) {
        var i :| OccursAt(s, p, i);
        assert p == [];
      }
    }
  }

  /** A piece whose first character is missing from `s` does not occur in it. */
  lemma LacksFirst(s: string, p: string)
    requires p != [] && p[0] !in s
    ensures !Contains(s, p)
  {
    ContainsAt(s, p);
    forall i | 0 <= i <= |s| - |p|
      ensures !OccursAt(s, p, i)
    {
      assert s[i..i + |p|][0] == s[i] != p[0];
    }
  }

  /** An occurrence at some index makes the piece occur. */
  lemma OccursContains(s: string, p: string, i: int)
    requires OccursAt(s, p, i)
    ensures Contains(s, p)
  {
    ContainsAt(s, p);
  }

  /** A piece that occurs is no longer than the text. */
  lemma ContainsLength(s: string, p: string)
    requires Contains(s, p)
    ensures |p| <= |s|
  {
    ContainsAt(s, p);
  }

  /** `s.find(c, from)`: the first index at or after `from` holding `c`, or -1. */
  function Find(s: string, c: char, from: nat): (r: int)
    decreases |s| - from
    ensures r == -1 || (from <= r < |s| && s[r] == c)
    ensures r == -1 ==> forall j :: from <= j < |s| ==> s[j] != c
    ensures r != -1 ==> forall j :: from <= j < r ==> s[j] != c
  {
    if from >= |s| then -1
    else if s[from] == c then from
    else Find(s, c, from + 1)
  }

  /** `s.rfind(c)`: the last index holding `c`, or -1. */
  function RFind(s: string, c: char): (r: int)
    ensures r == -1 || (0 <= r < |s| && s[r] == c)
    ensures r == -1 <==> c !in s
    ensures forall j :: r < j < |s| ==> s[j] != c
  {
    if s == [] then -1
    else if s[|s| - 1] == c then |s| - 1
    else RFind(s[..|s| - 1], c)
  }

  /** The first index at or after `from` whose character is in `cs`, or `|s|` when there is none:
      the smallest of the `s.find(c, from)` results that are not -1. */
  function FindAny(s: string, cs: set<char>, from: nat): (r: nat)
    requires from <= |s|
    decreases |s| - from
    ensures from <= r <= |s|
    ensures r < |s| ==> s[r] in cs
    ensures forall j :: from <= j < r ==> s[j] !in cs
  {
    if from == |s| then |s|
    else if s[from] in cs then from
    else FindAny(s, cs, from + 1)
  }

  /** `s.split(c, 1)`: the text before the first `c` and, when there is one, the text after it. */
  function SplitOnce(s: string, c: char): (r: (string, string))
    requires c in s
    ensures r.0 + [c] + r.1 == s && c !in r.0
  {
    var i := Find(s, c, 0);
    assert s == s[..i] + [c] + s[i + 1..];
    (s[..i], s[i + 1..])
  }

  lemma SplitOnceOf(a: string, c: char, b: string)
    requires c !in a
    ensures c in a + [c] + b && SplitOnce(a + [c] + b, c) == (a, b)
  {
    var s := a + [c] + b;
    assert s[|a|] == c;
    var i := Find(s, c, 0);
    assert i == |a|;
    assert s[..i] == a && s[i + 1..] == b;
  }

  /** `s.split(c)`: the pieces of `s` between the occurrences of `c`. */
  function Split(s: string, c: char): (r: seq<string>)
    decreases |s|
    ensures |r| >= 1
    ensures forall k :: 0 <= k < |r| ==> c !in r[k]
  {
    if c in s then
      var (before, after) := SplitOnce(s, c);
      [before] + Split(after, c)
    else [s]
  }

  /** `sep.join(parts)` with a one-character separator. */
  function Join(parts: seq<string>, c: char): string
  {
    if parts == [] then []
    else if |parts| == 1 then parts[0]
    else parts[0] + [c] + Join(parts[1..], c)
  }

  /** Splitting the joined pieces gives back the pieces when none of them holds the separator. */
  lemma {:induction false} SplitJoin(parts: seq<string>, c: char)
    requires parts != []
    requires forall k :: 0 <= k < |parts| ==> c !in parts[k]
    ensures Split(Join(parts, c), c) == parts
  {
    if |parts| > 1 {
      SplitJoin(parts[1..], c);
      SplitOnceOf(parts[0], c, Join(parts[1..], c));
    }
  }

  /** A character other than the separator occurs in the joined text only if it occurs in a piece. */
  lemma {:induction false} JoinLacks(parts: seq<string>, c: char, x: char)
    requires x != c
    requires forall k :: 0 <= k < |parts| ==> x !in parts[k]
    ensures x !in Join(parts, c)
  {
    if |parts| > 1 {
      JoinLacks(parts[1..], c, x);
    }
  }

  /** A character absent from `s` is absent from every piece of `s.split(c)`. */
  lemma {:induction false} SplitLacks(s: string, c: char, x: char)
    requires x !in s
    ensures forall k :: 0 <= k < |Split(s, c)| ==> x !in Split(s, c)[k]
    decreases |s|
  {
    if c in s {
      var (before, after) := SplitOnce(s, c);
      assert s == before + [c] + after;
      SplitLacks(after, c, x);
    }
  }

  /** `s.replace(p, r)` for a non-empty `p`: every occurrence of `p`, found left to right without
      overlapping, becomes `r`. */
  function ReplaceAll(s: string, p: string, r: string): string
    requires p != []
    decreases |s|
  {
    if s == [] then []
    else if StartsWith(s, p) then r + ReplaceAll(s[|p|..], p, r)
    else [s[0]] + ReplaceAll(s[1..], p, r)
  }

  /** Replacing a piece that does not occur changes nothing. */
  lemma {:induction false} ReplaceAbsent(s: string, p: string, r: string)
    requires p != [] && !Contains(s, p)
    ensures ReplaceAll(s, p, r) == s
    decreases |s|
  {
    if s != [] {
      ReplaceAbsent(s[1..], p, r);
      assert s == [s[0]] + s[1..];
    }
  }

  /** An occurrence at the very start is replaced and scanning resumes after it. */
  lemma ReplaceAtStart(p: string, t: string, r: string)
    requires p != []
    ensures ReplaceAll(p + t, p, r) == r + ReplaceAll(t, p, r)
  {
    assert (p + t)[..|p|] == p && (p + t)[|p|..] == t;
  }

  /** No occurrence of `p` can start inside `a`: each character of `a` either differs from the
      first character of `p` or is followed, still inside `a`, by one that differs from its second. */
  predicate NoStartIn(a: string, p: string)
    requires p != []
  {
    forall i {:trigger a[i]} :: 0 <= i < |a| ==> a[i] != p[0] || (i + 1 < |a| && |p| > 1 && a[i + 1] != p[1])
  }

  lemma NoStartInAt(a: string, p: string, i: nat)
    requires p != [] && NoStartIn(a, p) && i < |a|
    ensures a[i] != p[0] || (i + 1 < |a| && |p| > 1 && a[i + 1] != p[1])
  {
  }

  /** A prefix in which no occurrence of `p` can start is copied unchanged. */
  lemma {:induction false} ReplaceSkips(a: string, t: string, p: string, r: string)
    requires p != [] && NoStartIn(a, p)
    ensures ReplaceAll(a + t, p, r) == a + ReplaceAll(t, p, r)
    decreases |a|
  {
    if a != [] {
      var s := a + t;
      NoStartInAt(a, p, 0);
      assert !StartsWith(s, p) by {
        if |p| <= |s| {
          if a[0] == p[0] {
            assert s[..|p|][1] == a[1];
          } else {
            assert s[..|p|][0] != p[0];
          }
        }
      }
      assert s[1..] == a[1..] + t;
      assert NoStartIn(a[1..], p) by {
        forall i | 0 <= i < |a[1..]|
          ensures a[1..][i] != p[0] || (i + 1 < |a[1..]| && |p| > 1 && a[1..][i + 1] != p[1])
        {
          assert a[1..][i] == a[i + 1];
          NoStartInAt(a, p, i + 1);
          if i + 1 < |a[1..]| {
            assert a[1..][i + 1] == a[i + 2];
          }
        }
      }
      ReplaceSkips(a[1..], t, p, r);
      calc {
        ReplaceAll(s, p, r);
        [s[0]] + ReplaceAll(s[1..], p, r);
        [a[0]] + (a[1..] + ReplaceAll(t, p, r));
        { assert a == [a[0]] + a[1..]; }
        a + ReplaceAll(t, p, r);
      }
    } else {
      assert a + t == t;
    }
  }

  /** The first character of what replacing produces, when the text starts with a character that
      no occurrence of `p` starts with. */
  lemma ReplaceKeepsFirst(s: string, p: string, r: string)
    requires p != [] && s != [] && s[0] != p[0]
    ensures ReplaceAll(s, p, r) != [] && ReplaceAll(s, p, r)[0] == s[0]
  {
    assert !StartsWith(s, p) by {
      if |p| <= |s| { assert s[..|p|][0] != p[0]; }
    }
  }

  /** Replacing distributes over a concatenation whose second part starts with a character that
      `p` does not hold: no occurrence of `p` can straddle the boundary. */
  lemma {:induction false} ReplaceConcat(a: string, b: string, p: string, r: string)
    requires p != [] && (b == [] || b[0] !in p)
    ensures ReplaceAll(a + b, p, r) == ReplaceAll(a, p, r) + ReplaceAll(b, p, r)
    decreases |a|
  {
    if a == [] {
      assert a + b == b;
    } else if StartsWith(a, p) {
      StartsBefore(a, b, p);
      ReplaceConcat(a[|p|..], b, p, r);
    } else {
      NoStartAcross(a, b, p);
      ReplaceConcat(a[1..], b, p, r);
    }
  }

  lemma StartsBefore(a: string, b: string, p: string)
    requires StartsWith(a, p)
    ensures StartsWith(a + b, p) && (a + b)[|p|..] == a[|p|..] + b
  {
    assert (a + b)[..|p|] == a[..|p|];
  }

  /** An occurrence of `p` cannot start in `a` and run on into a `b` that begins with a character
      `p` does not hold. */
  lemma NoStartAcross(a: string, b: string, p: string)
    requires a != [] && !StartsWith(a, p) && (b == [] || b[0] !in p)
    ensures !StartsWith(a + b, p) && (a + b)[1..] == a[1..] + b
  {
    var s := a + b;
    if |p| <= |a| {
      assert s[..|p|] == a[..|p|];
    } else if |p| <= |s| {
      assert s[..|p|][|a|] == b[0];
    }
    assert s[1..] == a[1..] + b;
  }

  /** A character that neither the text nor the replacement holds is not in the result. */
  lemma {:induction false} ReplaceLacks(s: string, p: string, r: string, x: char)
    requires p != [] && x !in s && x !in r
    ensures x !in ReplaceAll(s, p, r)
    decreases |s|
  {
    if s != [] {
      if StartsWith(s, p) {
        ReplaceLacks(s[|p|..], p, r, x);
      } else {
        ReplaceLacks(s[1..], p, r, x);
      }
    }
  }

  /** When `p` occurs, every character of the replacement is in the result. */
  lemma {:induction false} ReplaceShows(s: string, p: string, r: string, x: char)
    requires p != [] && Contains(s, p) && x in r
    ensures x in ReplaceAll(s, p, r)
    decreases |s|
  {
    if !StartsWith(s, p) {
      ReplaceShows(s[1..], p, r, x);
    }
  }

  /** With a non-empty replacement, only the empty text is replaced by the empty text. */
  lemma ReplaceEmpty(s: string, p: string, r: string)
    requires p != [] && r != []
    ensures ReplaceAll(s, p, r) == [] <==> s == []
  {
  }

  /** When neither `p` nor `r` holds `c`, replacing keeps `c` where it was: the text replaced is
      split at its first `c` into the replaced parts. */
  lemma SplitOnceReplace(s: string, c: char, p: string, r: string)
    requires p != [] && c !in p && c !in r
    ensures c in ReplaceAll(s, p, r) <==> c in s
    ensures c in s ==>
      SplitOnce(ReplaceAll(s, p, r), c) == (ReplaceAll(SplitOnce(s, c).0, p, r), ReplaceAll(SplitOnce(s, c).1, p, r))
  {
    if c in s {
      var (a, b) := SplitOnce(s, c);
      assert s == a + ([c] + b);
      ReplaceConcat(a, [c] + b, p, r);
      assert !StartsWith([c] + b, p) by {
        if |p| <= |[c] + b| { assert ([c] + b)[..|p|][0] == c; }
      }
      assert ([c] + b)[1..] == b;
      ReplaceLacks(a, p, r, c);
      var ra, rb := ReplaceAll(a, p, r), ReplaceAll(b, p, r);
      assert ReplaceAll(s, p, r) == ra + [c] + rb;
      SplitOnceOf(ra, c, rb);
    } else {
      ReplaceLacks(s, p, r, c);
    }
  }

  /** Each of `parts` with every occurrence of `p` replaced. */
  function ReplaceEach(parts: seq<string>, p: string, r: string): (rs: seq<string>)
    requires p != []
    ensures |rs| == |parts| && forall k :: 0 <= k < |parts| ==> rs[k] == ReplaceAll(parts[k], p, r)
  {
    seq(|parts|, k requires 0 <= k < |parts| => ReplaceAll(parts[k], p, r))
  }

  lemma ReplaceEachCons(part: string, parts: seq<string>, p: string, r: string)
    requires p != []
    ensures ReplaceEach([part] + parts, p, r) == [ReplaceAll(part, p, r)] + ReplaceEach(parts, p, r)
  {
  }

  /** Splitting the replaced text at a character neither `p` nor `r` holds gives the replaced pieces. */
  lemma {:induction false} SplitReplace(s: string, c: char, p: string, r: string)
    requires p != [] && c !in p && c !in r
    ensures Split(ReplaceAll(s, p, r), c) == ReplaceEach(Split(s, c), p, r)
    decreases |s|
  {
    SplitOnceReplace(s, c, p, r);
    if c in s {
      var (a, b) := SplitOnce(s, c);
      SplitReplace(b, c, p, r);
      ReplaceEachCons(a, Split(b, c), p, r);
    }
  }

  predicate IsUpper(c: char) {
    'A' <= c <= 'Z'
  }

  function LowerChar(c: char): (r: char)
    ensures !IsUpper(r)
    ensures IsUpper(c) ==> r as int == c as int + 32
    ensures !IsUpper(c) ==> r == c
  {
    if IsUpper(c) then (c as int + 32) as char else c
  }

  /** `s.lower()` restricted to ASCII letters. */
  function Lower(s: string): (r: string)
    ensures |r| == |s|
    ensures forall i :: 0 <= i < |s| ==> r[i] == LowerChar(s[i])
  {
    seq(|s|, i requires 0 <= i < |s| => LowerChar(s[i]))
  }

  lemma LowerOfLower(s: string)
    requires forall i :: 0 <= i < |s| ==> !IsUpper(s[i])
    ensures Lower(s) == s
  {
  }

  /** `s.lstrip()`. */
  function StripLeft(s: string): (r: string)
    decreases |s|
    ensures |r| <= |s| && r == s[|s| - |r|..]
    ensures forall i :: 0 <= i < |s| - |r| ==> IsSpace(s[i])
    ensures r != [] ==> !IsSpace(r[0])
  {
    if s != [] && IsSpace(s[0]) then StripLeft(s[1..]) else s
  }

  /** `s.rstrip()`. */
  function StripRight(s: string): (r: string)
    decreases |s|
    ensures |r| <= |s| && r == s[..|r|]
    ensures forall i :: |r| <= i < |s| ==> IsSpace(s[i])
    ensures r != [] ==> !IsSpace(r[|r| - 1])
  {
    if s != [] && IsSpace(s[|s| - 1]) then StripRight(s[..|s| - 1]) else s
  }

  /** `s.strip()`. */
  function Strip(s: string): string {
    StripRight(StripLeft(s))
  }

  /** Neither end of `s` is whitespace: what `strip` leaves. */
  predicate IsStripped(s: string) {
    s != [] ==> !IsSpace(s[0]) && !IsSpace(s[|s| - 1])
  }

  /** `strip` removes exactly the whitespace at both ends: its result is the piece `s[i..j]` of the
      input with only whitespace around it. */
  lemma StripBounds(s: string) returns (i: nat, j: nat)
    ensures i <= j <= |s| && Strip(s) == s[i..j]
    ensures forall k :: 0 <= k < i ==> IsSpace(s[k])
    ensures forall k :: j <= k < |s| ==> IsSpace(s[k])
  {
    var l := StripLeft(s);
    i := |s| - |l|;
    j := i + |StripRight(l)|;
    RightBounds(s, i, l);
    assert Strip(s) == StripRight(l) == s[i..j];
  }

  /** The trailing whitespace `rstrip` removes from a suffix `l == s[i..]` lies at the end of `s`. */
  lemma RightBounds(s: string, i: nat, l: string)
    requires i <= |s| && l == s[i..]
    ensures var r := StripRight(l);
      i + |r| <= |s| && r == s[i..i + |r|] && forall k :: i + |r| <= k < |s| ==> IsSpace(s[k])
  {
    var r := StripRight(l);
    forall k | i + |r| <= k < |s|
      ensures IsSpace(s[k])
    {
      assert s[k] == l[k - i];
    }
  }

  /** What `strip` returns has no whitespace at either end. */
  lemma StripStripped(s: string)
    ensures IsStripped(Strip(s))
  {
    var l := StripLeft(s);
    if StripRight(l) != [] {
      assert StripRight(l)[0] == l[0];
    }
  }

  lemma {:induction false} StripOfStripped(s: string)
    requires IsStripped(s)
    ensures Strip(s) == s
  {
  }

  /** Appending one space to stripped text and stripping again gives the text back. */
  lemma StripTrailingBlank(a: string)
    requires IsStripped(a)
    ensures Strip(a + " ") == a
  {
    var s := a + " ";
    if a == [] {
      assert s[1..] == [];
      assert StripLeft(s) == [];
    } else {
      assert s[0] == a[0];
      assert StripLeft(s) == s;
      assert s[..|s| - 1] == a;
      assert StripRight(s) == StripRight(a) == a;
    }
  }

  /** Two stripped non-empty pieces joined by a space are themselves stripped. */
  lemma StrippedJoin(a: string, b: string)
    requires IsStripped(a) && IsStripped(b) && a != [] && b != []
    ensures IsStripped(a + " " + b)
  {
  }
}
