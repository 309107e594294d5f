/** The Python string built-ins the services rely on: `str.isspace`,
    `str.strip`, `str.replace`, `str.split` and `sep.join`, on strings as
    sequences of code points. */
module Text {

  /** Python's `str.isspace` for one code point. */
  predicate IsSpace(c: char)
  {
    c == ' ' || c == '\t' || c == '\n' || c == '\r' || c == '\U{0B}' || c == '\U{0C}'
    || ('\U{1C}' <= c <= '\U{1F}') || c == '\U{85}' || c == '\U{A0}' || c == '\U{1680}'
    || ('\U{2000}' <= c <= '\U{200A}') || c == '\U{2028}' || c == '\U{2029}'
    || c == '\U{202F}' || c == '\U{205F}' || c == '\U{3000}'
  }

  /** `t` occurs in `s` starting at index `i`. */
  predicate OccursAt(s: string, t: string, i: int)
  {
    0 <= i && i + |t| <= |s| && s[i..i + |t|] == t
  }

  /** Python's `t in s` for strings. */
  predicate Contains(s: string, t: string)
  {
    exists i | 0 <= i <= |s| - |t| :: OccursAt(s, t, i)
  }

  /** An occurrence inside an occurrence is an occurrence. */
  lemma OccursAtTrans(s: string, u: string, t: string, i: int, j: int)
    requires OccursAt(s, u, i) && OccursAt(u, t, j)
    ensures OccursAt(s, t, i + j)
  {
    forall k | 0 <= k < |t|
      ensures s[i + j..i + j + |t|][k] == t[k]
    {
      assert t[k] == u[j + k] == s[i + j + k];
    }
  }

  /** A substring of a string free of `t` is free of `t`. */
  lemma NotContainsSub(s: string, u: string, t: string, i: int)
    requires OccursAt(s, u, i) && !Contains(s, t)
    ensures !Contains(u, t)
  {
    if Contains(u, t) {
      var j :| OccursAt(u, t, j);
      OccursAtTrans(s, u, t, i, j);
    }
  }

  /** `s.lstrip()` */
  function StripLeft(s: string): (r: string)
    ensures |r| <= |s| && r == s[|s| - |r|..]
    ensures forall k :: 0 <= k < |s| - |r| ==> IsSpace(s[k])
    ensures r == [] || !IsSpace(r[0])
  {
    if s != [] && IsSpace(s[0]) then StripLeft(s[1..]) else s
  }

  /** `s.rstrip()` */
  function StripRight(s: string): (r: string)
    ensures |r| <= |s| && r == s[..|r|]
    ensures forall k :: |r| <= k < |s| ==> IsSpace(s[k])
    ensures r == [] || !IsSpace(r[|r| - 1])
  {
    if s != [] && IsSpace(s[|s| - 1]) then StripRight(s[..|s| - 1]) else s
  }

  /** `s.strip()`: the substring of `s` left once the whitespace before
      and after it is removed; it neither starts nor ends with whitespace. */
  function Strip(s: string): (r: string)
    ensures OccursAt(s, r, |s| - |StripLeft(s)|)
    ensures forall k :: 0 <= k < |s| - |StripLeft(s)| ==> IsSpace(s[k])
    ensures forall k :: |s| - |StripLeft(s)| + |r| <= k < |s| ==> IsSpace(s[k])
    ensures r == [] || (!IsSpace(r[0]) && !IsSpace(r[|r| - 1]))
  {
    var l := StripLeft(s);
    var r := StripRight(l);
    StripParts(s, l, r);
    r
  }

  /** Where the two halves of `strip` leave the result inside `s`. */
  lemma StripParts(s: string, l: string, r: string)
    requires |l| <= |s| && l == s[|s| - |l|..]
    requires |r| <= |l| && r == l[..|r|]
    requires forall k :: |r| <= k < |l| ==> IsSpace(l[k])
    ensures OccursAt(s, r, |s| - |l|)
    ensures forall k :: |s| - |l| + |r| <= k < |s| ==> IsSpace(s[k])
  {
    var i := |s| - |l|;
    assert s[i..i + |r|] == l[..|r|];
    forall k | i + |r| <= k < |s|
      ensures IsSpace(s[k])
    {
      assert s[k] == l[k - i];
    }
  }

  /** Stripping a string that neither starts nor ends with whitespace
      leaves it as it is. */
  lemma StripUnchanged(s: string)
    requires s == [] || (!IsSpace(s[0]) && !IsSpace(s[|s| - 1]))
    ensures Strip(s) == s
  {
    assert StripLeft(s) == s;
    assert StripRight(s) == s;
  }

  /** `s.replace(pat, rep)`: occurrences of `pat` replaced left to right,
      without overlap. */
  function Replace(s: string, pat: string, rep: string): string
    requires |pat| > 0
    decreases |s|
  {
    if |s| < |pat| then s
    else if s[..|pat|] == pat then rep + Replace(s[|pat|..], pat, rep)
    else [s[0]] + Replace(s[1..], pat, rep)
  }

  /** Replacing a pattern that does not occur changes nothing. */
  lemma {:induction false} ReplaceAbsent(s: string, pat: string, rep: string)
    requires |pat| > 0 && !Contains(s, pat)
    ensures Replace(s, pat, rep) == s
    decreases |s|
  {
    if |s| >= |pat| {
      assert !OccursAt(s, pat, 0);
      if Contains(s[1..], pat) {
        var i :| 0 <= i <= |s[1..]| - |pat| && OccursAt(s[1..], pat, i);
        assert s[i + 1..i + 1 + |pat|] == s[1..][i..i + |pat|];
        assert OccursAt(s, pat, i + 1);
      }
      ReplaceAbsent(s[1..], pat, rep);
      assert [s[0]] + s[1..] == s;
    }
  }

  /** Replacing a character by a string that does not contain it leaves
      none of that character behind. */
  lemma {:induction false} ReplaceCharRemoves(s: string, c: char, rep: string)
    requires c !in rep
    ensures c !in Replace(s, [c], rep)
    decreases |s|
  {
    if |s| >= 1 {
      ReplaceCharRemoves(s[1..], c, rep);
      if s[..1] != [c] {
        assert s[0] != c;
      }
    }
  }

  /** Replacing a character by another character maps the string point by
      point. */
  lemma {:induction false} ReplaceCharAt(s: string, c: char, d: char)
    ensures |Replace(s, [c], [d])| == |s|
    ensures forall i :: 0 <= i < |s| ==>
              Replace(s, [c], [d])[i] == (if s[i] == c then d else s[i])
    decreases |s|
  {
    if |s| >= 1 {
      ReplaceCharAt(s[1..], c, d);
      var rest := Replace(s[1..], [c], [d]);
      if s[..1] == [c] {
        assert s[0] == c;
        assert Replace(s, [c], [d]) == [d] + rest;
      } else {
        assert s[0] != c;
        assert Replace(s, [c], [d]) == [s[0]] + rest;
      }
    }
  }

  /** A replacement that is at least as long as what it replaces never
      shortens the string. */
  lemma {:induction false} ReplaceNotShorter(s: string, pat: string, rep: string)
    requires 0 < |pat| <= |rep|
    ensures |Replace(s, pat, rep)| >= |s|
    decreases |s|
  {
    if |s| >= |pat| {
      if s[..|pat|] == pat {
        ReplaceNotShorter(s[|pat|..], pat, rep);
      } else {
        ReplaceNotShorter(s[1..], pat, rep);
      }
    }
  }

  /** `s.split(sep)[0]`: the part of `s` before the first occurrence of
      `sep`, or all of `s` when there is none. */
  function BeforeFirst(s: string, sep: string): (r: string)
    requires |sep| > 0
    ensures |r| <= |s| && r == s[..|r|]
    ensures |r| < |s| ==> OccursAt(s, sep, |r|)
    ensures forall i :: 0 <= i < |r| ==> !OccursAt(s, sep, i)
    decreases |s|
  {
    if |s| < |sep| then s
    else if s[..|sep|] == sep then []
    else
      var rest := BeforeFirst(s[1..], sep);
      assert forall i :: 1 <= i < |rest| + 1 ==> (OccursAt(s, sep, i) <==> OccursAt(s[1..], sep, i - 1));
      [s[0]] + rest
  }

  /** The part before the first separator contains no separator. */
  lemma BeforeFirstFree(s: string, sep: string)
    requires |sep| > 0
    ensures !Contains(BeforeFirst(s, sep), sep)
  {
    var r := BeforeFirst(s, sep);
    if Contains(r, sep) {
      var i :| OccursAt(r, sep, i);
      OccursAtTrans(s, r, sep, 0, i);
    }
  }

  /** Without a separator, the part before the first one is everything. */
  lemma BeforeFirstAbsent(s: string, sep: string)
    requires |sep| > 0 && !Contains(s, sep)
    ensures BeforeFirst(s, sep) == s
  {
    var r := BeforeFirst(s, sep);
    assert |r| < |s| ==> OccursAt(s, sep, |r|) && |r| <= |s| - |sep|;
  }

  /** No occurrence of `pat` starts inside `a` in `a + t` when `a` holds
      none and no character of `pat` after its first is the first one of `t`. */
  lemma NoOccurrenceBefore(a: string, t: string, pat: string)
    requires |pat| > 0 && |t| > 0 && !Contains(a, pat)
    requires forall d :: 1 <= d < |pat| ==> pat[d] != t[0]
    ensures forall j :: 0 <= j < |a| ==> !OccursAt(a + t, pat, j)
  {
    var s := a + t;
    forall j | 0 <= j < |a|
      ensures !OccursAt(s, pat, j)
    {
      if j + |pat| <= |a| {
        assert s[j..j + |pat|] == a[j..j + |pat|];
        assert !OccursAt(a, pat, j);
      } else if j + |pat| <= |s| {
        assert s[j..j + |pat|][|a| - j] == t[0];
      }
    }
  }

  /** Replacing in `c + t` leaves `c` alone when no occurrence of the
      pattern starts inside `c`. */
  lemma {:induction false} ReplaceKeepsPrefix(c: string, t: string, pat: string, rep: string)
    requires |pat| > 0
    requires forall i :: 0 <= i < |c| ==> !OccursAt(c + t, pat, i)
    ensures Replace(c + t, pat, rep) == c + Replace(t, pat, rep)
    decreases |c|
  {
    if c == [] {
      assert c + t == t;
    } else {
      var s := c + t;
      var tail := c[1..];
      assert s[1..] == tail + t;
      NoOccurrenceInTail(s, |tail|, pat);
      ReplaceKeepsPrefix(tail, t, pat, rep);
      assert [s[0]] + tail == c;
      if |s| < |pat| {
        ReplaceShort(t, pat, rep);
      } else {
        assert !OccursAt(s, pat, 0);
        assert Replace(s, pat, rep) == [s[0]] + Replace(s[1..], pat, rep);
      }
    }
  }

  lemma NoOccurrenceInTail(s: string, n: nat, pat: string)
    requires n < |s|
    requires forall i :: 0 <= i <= n ==> !OccursAt(s, pat, i)
    ensures forall i :: 0 <= i < n ==> !OccursAt(s[1..], pat, i)
  {
    forall i | 0 <= i < n
      ensures !OccursAt(s[1..], pat, i)
    {
      assert !OccursAt(s, pat, i + 1);
      if i + |pat| <= |s[1..]| {
        assert s[1..][i..i + |pat|] == s[i + 1..i + 1 + |pat|];
      }
    }
  }

  lemma ReplaceShort(s: string, pat: string, rep: string)
    requires 0 < |pat| && |s| < |pat|
    ensures Replace(s, pat, rep) == s
  {
  }

  /** `(a + sep + b).split(sep)[0] == a` when `a` holds no separator and
      the separator cannot overlap itself. */
  lemma BeforeFirstAt(a: string, sep: string, b: string)
    requires |sep| > 0 && !Contains(a, sep)
    requires forall d :: 1 <= d < |sep| ==> sep[d] != sep[0]
    ensures BeforeFirst(a + sep + b, sep) == a
  {
    var s := a + sep + b;
    assert s == a + (sep + b);
    NoOccurrenceBefore(a, sep + b, sep);
    assert s[|a|..|a| + |sep|] == sep;
    assert OccursAt(s, sep, |a|);
    var r := BeforeFirst(s, sep);
    assert |r| <= |a|;
    assert !OccursAt(s, sep, |r|) || |r| == |a|;
    assert s[..|a|] == a;
  }

  /** `s.split(c)` for a one-character separator `c`. */
  function Split(s: string, c: char): (parts: seq<string>)
    ensures |parts| >= 1
    decreases |s|
  {
    if s == [] then [[]]
    else
      var rest := Split(s[1..], c);
      if s[0] == c then [[]] + rest else [[s[0]] + rest[0]] + rest[1..]
  }

  /** `c.join(parts)` */
  function Join(parts: seq<string>, c: char): string
  {
    if parts == [] then []
    else if |parts| == 1 then parts[0]
    else parts[0] + [c] + Join(parts[1..], c)
  }

  /** Number of occurrences of `c` in `s`. */
  function CountChar(s: string, c: char): nat
  {
    if s == [] then 0 else (if s[0] == c then 1 else 0) + CountChar(s[1..], c)
  }

  /** Splitting on `c` gives one more part than there are `c`s, and no part
      contains `c`. */
  lemma {:induction false} SplitCount(s: string, c: char)
    ensures |Split(s, c)| == CountChar(s, c) + 1
    ensures forall p :: p in Split(s, c) ==> c !in p
    decreases |s|
  {
    if s != [] {
      SplitCount(s[1..], c);
      var rest := Split(s[1..], c);
      if s[0] != c {
        assert c !in rest[0];
        forall p | p in Split(s, c) ensures c !in p {
          if p != [s[0]] + rest[0] {
            assert p in rest[1..];
          }
        }
      }
    }
  }

  /** A string without `c` is one part. */
  lemma {:induction false} SplitFree(p: string, c: char)
    requires c !in p
    ensures Split(p, c) == [p]
    decreases |p|
  {
    if p != [] {
      SplitFree(p[1..], c);
      assert [p[0]] + p[1..] == p;
    }
  }

  /** A part without `c` followed by `c` splits off as the first part. */
  lemma {:induction false} SplitFirst(p: string, r: string, c: char)
    requires c !in p
    ensures Split(p + [c] + r, c) == [p] + Split(r, c)
    decreases |p|
  {
    if p == [] {
      assert p + [c] + r == [c] + r;
      assert ([c] + r)[1..] == r;
    } else {
      var s := p + [c] + r;
      assert s[1..] == p[1..] + [c] + r;
      SplitFirst(p[1..], r, c);
      assert [p[0]] + p[1..] == p;
    }
  }

  /** Splitting undoes joining, as long as no part holds the separator. */
  lemma {:induction false} SplitJoin(parts: seq<string>, c: char)
    requires |parts| >= 1
    requires forall p :: p in parts ==> c !in p
    ensures Split(Join(parts, c), c) == parts
    decreases |parts|
  {
    if |parts| == 1 {
      SplitFree(parts[0], c);
    } else {
      SplitJoin(parts[1..], c);
      SplitFirst(parts[0], Join(parts[1..], c), c);
      assert [parts[0]] + parts[1..] == parts;
    }
  }
}
