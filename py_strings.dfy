/**
 * The handful of Python `str` operations the inventory parsers are built from,
 * with Python's semantics for an explicit, non-empty separator:
 * `t in s`, `s.find(t)`, `s.split(sep)` (empty fields kept), `s.replace(t, '')`
 * (left to right, non-overlapping), `s.strip(c)` and `sep.join(parts)`.
 */
module PyStrings {
  import opened Options

  /** `t` occurs in `s` starting at index `i`. */
  predicate OccursAt(s: string, t: string, i: int) {
    0 <= i && i + |t| <= |s| && s[i..i + |t|] == t
  }

  /** Python's `t in s`. */
  predicate Contains(s: string, t: string) {
    exists i :: 0 <= i <= |s| - |t| && OccursAt(s, t, i)
  }

  predicate EndsWith(s: string, t: string) {
    |t| <= |s| && s[|s| - |t|..] == t
  }

  lemma OccursShift(s: string, t: string)
    requires |s| > 0
    ensures forall j :: 1 <= j ==> (OccursAt(s, t, j) <==> OccursAt(s[1..], t, j - 1))
  {
    forall j | 1 <= j
      ensures OccursAt(s, t, j) <==> OccursAt(s[1..], t, j - 1)
    {
      if j + |t| <= |s| {
        assert s[1..][j - 1..j - 1 + |t|] == s[j..j + |t|];
      }
    }
  }

  /** An occurrence inside a prefix of `s` is an occurrence in `s`. */
  lemma OccursInPrefix(s: string, n: int, t: string, j: int)
    requires 0 <= n <= |s| && OccursAt(s[..n], t, j)
    ensures OccursAt(s, t, j) && j + |t| <= n
  {
    assert s[..n][j..j + |t|] == s[j..j + |t|];
  }

  /** An occurrence inside a suffix of `s` is an occurrence in `s`, shifted. */
  lemma OccursInSuffix(s: string, n: int, t: string, j: int)
    requires 0 <= n <= |s| && OccursAt(s[n..], t, j)
    ensures OccursAt(s, t, n + j)
  {
    assert s[n..][j..j + |t|] == s[n + j..n + j + |t|];
  }

  /** Whatever occurs in a prefix of `s` occurs in `s`. */
  lemma ContainsPrefix(s: string, n: int, t: string)
    requires 0 <= n <= |s| && Contains(s[..n], t)
    ensures Contains(s, t)
  {
    var j :| 0 <= j <= n - |t| && OccursAt(s[..n], t, j);
    OccursInPrefix(s, n, t, j);
  }

  /** A single character occurs as a one-letter string exactly when it is an element. */
  lemma ContainsChar(s: string, c: char)
    ensures Contains(s, [c]) <==> c in s
  {
    if c in s {
      var i :| 0 <= i < |s| && s[i] == c;
      assert OccursAt(s, [c], i);
    }
    if Contains(s, [c]) {
      var i :| 0 <= i <= |s| - 1 && OccursAt(s, [c], i);
      assert s[i] == s[i..i + 1][0];
    }
  }

  /** If `t` occurs in `u` and `u` in `s`, then `t` occurs in `s`. */
  lemma ContainsTransitive(s: string, u: string, t: string)
    requires Contains(s, u) && Contains(u, t)
    ensures Contains(s, t)
  {
    var i :| 0 <= i <= |s| - |u| && OccursAt(s, u, i);
    var j :| 0 <= j <= |u| - |t| && OccursAt(u, t, j);
    forall k | 0 <= k < |t| ensures s[i + j + k] == t[k] {
      assert s[i + j + k] == s[i..i + |u|][j + k] == u[j + k];
      assert u[j + k] == u[j..j + |t|][k];
    }
    assert s[i + j..i + j + |t|] == t;
    assert OccursAt(s, t, i + j);
  }

  /** Python's `s.find(t)`: the lowest index at which `t` occurs, or -1. */
  function Find(s: string, t: string): (r: int)
    ensures -1 <= r <= |s|
    ensures r >= 0 ==> OccursAt(s, t, r)
    decreases |s|
  {
    if |s| < |t| then -1
    else if s[..|t|] == t then 0
    else
      var k := Find(s[1..], t);
      if k < 0 then -1 else k + 1
  }

  /** No occurrence of `t` starts before the one Find reports. */
  lemma {:induction false} FindFirst(s: string, t: string)
    ensures forall j :: 0 <= j && (Find(s, t) < 0 || j < Find(s, t)) ==> !OccursAt(s, t, j)
    decreases |s|
  {
    if |s| >= |t| && s[..|t|] != t {
      OccursShift(s, t);
      FindFirst(s[1..], t);
    }
  }

  lemma FindContains(s: string, t: string)
    ensures Contains(s, t) <==> Find(s, t) >= 0
  {
    FindFirst(s, t);
    if Find(s, t) >= 0 {
      assert OccursAt(s, t, Find(s, t));
    }
  }

  /** Find returns any index where `t` occurs and before which it does not. */
  lemma FindIs(s: string, t: string, i: int)
    requires OccursAt(s, t, i)
    requires forall j :: 0 <= j < i ==> !OccursAt(s, t, j)
    ensures Find(s, t) == i
  {
    FindFirst(s, t);
  }

  /** The part of `s` before index `i` holds no occurrence of `t` when none starts before `i`. */
  lemma NoneBefore(s: string, t: string, i: int)
    requires t != [] && 0 <= i <= |s|
    requires forall j :: 0 <= j < i ==> !OccursAt(s, t, j)
    ensures !Contains(s[..i], t)
  {
    if Contains(s[..i], t) {
      var j :| 0 <= j <= i - |t| && OccursAt(s[..i], t, j);
      OccursInPrefix(s, i, t, j);
    }
  }

  /** The text before the first occurrence of `sep`, or all of `s` when there is none. */
  function Before(s: string, sep: string): (r: string)
    requires sep != []
    ensures |r| <= |s| && r == s[..|r|]
    ensures !Contains(r, sep)
    ensures |r| == |s| || OccursAt(s, sep, |r|)
  {
    var i := Find(s, sep);
    FindFirst(s, sep);
    if i < 0 then s
    else
      NoneBefore(s, sep, i);
      s[..i]
  }

  /** The text before the separator is all of `s` exactly when `sep` does not occur. */
  lemma BeforeWhole(s: string, sep: string)
    requires sep != []
    ensures |Before(s, sep)| == |s| <==> !Contains(s, sep)
  {
    FindContains(s, sep);
  }

  /** `s` is its prefix up to `i`, the `n` characters from `i`, and the rest. */
  lemma Decompose(s: string, i: int, n: int)
    requires 0 <= i && 0 <= n && i + n <= |s|
    ensures s == s[..i] + s[i..i + n] + s[i + n..]
  {
  }

  /** The text after the first occurrence of `sep`. */
  function After(s: string, sep: string): (r: string)
    requires sep != [] && Contains(s, sep)
    ensures s == Before(s, sep) + sep + r
  {
    FindContains(s, sep);
    var i := Find(s, sep);
    Decompose(s, i, |sep|);
    s[i + |sep|..]
  }

  /** Python's `s.split(sep)` for a non-empty `sep`: empty fields are kept. */
  function Split(s: string, sep: string): (r: seq<string>)
    requires sep != []
    ensures |r| >= 1
    decreases |s|
  {
    var i := Find(s, sep);
    if i < 0 then [s] else [s[..i]] + Split(s[i + |sep|..], sep)
  }

  /** A split has a single field exactly when the separator does not occur. */
  lemma SplitSingle(s: string, sep: string)
    requires sep != []
    ensures |Split(s, sep)| == 1 <==> !Contains(s, sep)
  {
    FindContains(s, sep);
    if Contains(s, sep) {
      SplitStep(s, sep);
    } else {
      SplitWhole(s, sep);
    }
  }

  /** No field of a split holds the separator. */
  lemma {:induction false} SplitFieldsFree(s: string, sep: string)
    requires sep != []
    ensures forall k :: 0 <= k < |Split(s, sep)| ==> !Contains(Split(s, sep)[k], sep)
    decreases |s|
  {
    var i := Find(s, sep);
    FindContains(s, sep);
    if i >= 0 {
      FindFirst(s, sep);
      NoneBefore(s, sep, i);
      SplitFieldsFree(s[i + |sep|..], sep);
      SplitStep(s, sep);
    } else {
      SplitWhole(s, sep);
    }
  }

  /** Python's `sep.join(parts)`. */
  function Join(parts: seq<string>, sep: string): string {
    if |parts| == 0 then ""
    else if |parts| == 1 then parts[0]
    else parts[0] + sep + Join(parts[1..], sep)
  }

  /** Joining a field in front of at least one more field puts the separator between them. */
  lemma JoinCons(a: string, q: seq<string>, sep: string)
    requires |q| >= 1
    ensures Join([a] + q, sep) == a + sep + Join(q, sep)
  {
    assert ([a] + q)[1..] == q;
  }

  /** Joining with nothing between the fields concatenates them. */
  lemma JoinConcat(a: string, q: seq<string>)
    requires |q| >= 1
    ensures Join([a] + q, "") == a + Join(q, "")
  {
    JoinCons(a, q, "");
    assert a + "" == a;
  }

  /** Splitting and joining again with the same separator gives back the text. */
  lemma {:induction false} SplitJoin(s: string, sep: string)
    requires sep != []
    ensures Join(Split(s, sep), sep) == s
    decreases |s|
  {
    var i := Find(s, sep);
    SplitStep(s, sep);
    SplitWhole(s, sep);
    if i >= 0 {
      var rest := s[i + |sep|..];
      SplitJoin(rest, sep);
      JoinCons(s[..i], Split(rest, sep), sep);
      Decompose(s, i, |sep|);
    }
  }

  /** The first field and, when `sep` occurs, the second field of a split. */
  lemma SplitFields(s: string, sep: string)
    requires sep != []
    ensures Split(s, sep)[0] == Before(s, sep)
    ensures Contains(s, sep) ==> Split(s, sep)[1] == Before(After(s, sep), sep)
  {
    FindContains(s, sep);
  }

  /**
   * Python's `s.split(sep)[1]`: the text between the first occurrence of `sep` and the
   * next one (or the end); `None` where Python raises because `sep` does not occur.
   */
  function SecondField(s: string, sep: string): (r: Option<string>)
    requires sep != []
    ensures r.None? <==> !Contains(s, sep)
    ensures r.Some? ==> Contains(s, sep) && r.value == Before(After(s, sep), sep)
  {
    SplitSingle(s, sep);
    SplitFields(s, sep);
    var p := Split(s, sep);
    if |p| < 2 then None else Some(p[1])
  }

  /** A text that starts with the separator splits into an empty field and the split of the rest. */
  lemma SplitLeading(sep: string, s: string)
    requires sep != []
    ensures Split(sep + s, sep) == [""] + Split(s, sep)
  {
    assert OccursAt(sep + s, sep, 0);
    assert (sep + s)[|sep|..] == s;
  }

  /** Splitting on a single character undoes joining fields that do not hold it. */
  lemma {:induction false} SplitJoinChar(parts: seq<string>, c: char)
    requires |parts| >= 1
    requires forall k :: 0 <= k < |parts| ==> c !in parts[k]
    ensures Split(Join(parts, [c]), [c]) == parts
  {
    var s := Join(parts, [c]);
    if |parts| == 1 {
      ContainsChar(s, c);
    } else {
      var rest := Join(parts[1..], [c]);
      var p := parts[0];
      assert s == p + [c] + rest;
      assert OccursAt(s, [c], |p|);
      forall j | 0 <= j < |p| ensures !OccursAt(s, [c], j) {
        assert s[j..j + 1] == [p[j]];
      }
      FindIs(s, [c], |p|);
      assert s[..|p|] == p;
      assert s[|p| + 1..] == rest;
      SplitJoinChar(parts[1..], c);
    }
  }

  /**
   * The last field of `s.split(sep)`: Python's `s.split(sep)[-1]`. For a separator that
   * cannot overlap itself (every separator used here: `:`, ` `, `\n`, `: `) the
   * ensures fix the result; for one that can, such as `aa`, they admit other suffixes too.
   */
  function LastField(s: string, sep: string): (r: string)
    requires sep != []
    ensures |r| <= |s| && r == s[|s| - |r|..]
    ensures !Contains(r, sep)
    ensures |r| < |s| ==> OccursAt(s, sep, |s| - |r| - |sep|)
  {
    var p := Split(s, sep);
    LastFieldIsSuffix(s, sep);
    SplitFieldsFree(s, sep);
    Last(p)
  }

  /** `r` is a suffix of `s` and, unless it is all of `s`, `sep` occurs right before it. */
  ghost predicate FieldSuffix(s: string, sep: string, r: string) {
    |r| <= |s| && r == s[|s| - |r|..] && (|r| < |s| ==> OccursAt(s, sep, |s| - |r| - |sep|))
  }

  /** A trailing field of the text after a separator is a trailing field of the whole text. */
  lemma FieldSuffixStep(s: string, sep: string, i: int, r: string)
    requires OccursAt(s, sep, i)
    requires FieldSuffix(s[i + |sep|..], sep, r)
    ensures FieldSuffix(s, sep, r)
  {
    var n := i + |sep|;
    var rest := s[n..];
    assert rest[|rest| - |r|..] == s[|s| - |r|..];
    if |r| < |rest| {
      OccursInSuffix(s, n, sep, |rest| - |r| - |sep|);
    }
  }

  /** One step of a split: the text before the first separator, then the split of the rest. */
  lemma SplitStep(s: string, sep: string)
    requires sep != []
    ensures Find(s, sep) >= 0 ==>
      Split(s, sep) == [s[..Find(s, sep)]] + Split(s[Find(s, sep) + |sep|..], sep)
  {
  }

  /** Without a separator the split is the whole text. */
  lemma SplitWhole(s: string, sep: string)
    requires sep != []
    ensures Find(s, sep) < 0 ==> Split(s, sep) == [s]
  {
  }

  function Last(p: seq<string>): string requires |p| > 0 { p[|p| - 1] }

  lemma {:induction false} LastFieldIsSuffix(s: string, sep: string)
    requires sep != []
    ensures FieldSuffix(s, sep, Last(Split(s, sep)))
    decreases |s|
  {
    var i := Find(s, sep);
    if i >= 0 {
      var rest := s[i + |sep|..];
      assert Last(Split(s, sep)) == Last(Split(rest, sep));
      LastFieldIsSuffix(rest, sep);
      FieldSuffixStep(s, sep, i, Last(Split(rest, sep)));
    } else {
      assert Split(s, sep) == [s];
      assert s[|s| - |s|..] == s;
    }
  }

  /** Python's `s.replace(t, '')`: every occurrence of `t`, found left to right, removed. */
  function RemoveAll(s: string, t: string): (r: string)
    requires t != []
    ensures |r| <= |s|
    decreases |s|
  {
    var i := Find(s, t);
    if i < 0 then s else s[..i] + RemoveAll(s[i + |t|..], t)
  }

  /** One step of a removal: the text before the first `t`, then the removal from the rest. */
  lemma RemoveAllStep(s: string, t: string)
    requires t != []
    ensures Find(s, t) < 0 ==> RemoveAll(s, t) == s
    ensures Find(s, t) >= 0 ==>
      RemoveAll(s, t) == s[..Find(s, t)] + RemoveAll(s[Find(s, t) + |t|..], t)
  {
  }

  /** Removal changes the text exactly when `t` occurs in it, and then shortens it. */
  lemma RemoveAllChanges(s: string, t: string)
    requires t != []
    ensures !Contains(s, t) ==> RemoveAll(s, t) == s
    ensures Contains(s, t) ==> |RemoveAll(s, t)| < |s|
  {
    FindContains(s, t);
  }

  /** After removing a one-character `t`, that character no longer occurs. */
  lemma {:induction false} RemoveAllChar(s: string, c: char)
    ensures c !in RemoveAll(s, [c])
    decreases |s|
  {
    var i := Find(s, [c]);
    FindContains(s, [c]);
    FindFirst(s, [c]);
    if i < 0 {
      ContainsChar(s, c);
    } else {
      NoneBefore(s, [c], i);
      ContainsChar(s[..i], c);
      RemoveAllChar(s[i + 1..], c);
    }
  }

  /** The characters of `s` other than `c`, in order. */
  function Without(s: string, c: char): (r: string)
    ensures c !in r
    ensures |r| <= |s|
  {
    if |s| == 0 then "" else (if s[0] == c then "" else [s[0]]) + Without(s[1..], c)
  }

  lemma {:induction false} WithoutConcat(a: string, b: string, c: char)
    ensures Without(a + b, c) == Without(a, c) + Without(b, c)
    decreases |a|
  {
    if |a| > 0 {
      assert (a + b)[1..] == a[1..] + b;
      WithoutConcat(a[1..], b, c);
    } else {
      assert a + b == b;
    }
  }

  lemma {:induction false} WithoutAbsent(s: string, c: char)
    requires c !in s
    ensures Without(s, c) == s
    decreases |s|
  {
    if |s| > 0 {
      assert c !in s[1..];
      WithoutAbsent(s[1..], c);
      assert s == [s[0]] + s[1..];
    }
  }

  /** Removing a one-character string drops exactly the characters equal to it. */
  lemma {:induction false} RemoveAllCharIsWithout(s: string, c: char)
    ensures RemoveAll(s, [c]) == Without(s, c)
    decreases |s|
  {
    RemoveAllStep(s, [c]);
    if |s| > 0 {
      RemoveAllCharIsWithout(s[1..], c);
      if s[0] == c {
        assert s[..1] == [c];
        assert Find(s, [c]) == 0;
      } else {
        RemoveAllUncut(s, c);
      }
    }
  }

  /** A leading character other than `c` survives the removal of `c`. */
  lemma RemoveAllUncut(s: string, c: char)
    requires |s| > 0 && s[0] != c
    ensures RemoveAll(s, [c]) == [s[0]] + RemoveAll(s[1..], [c])
  {
    var t := s[1..];
    var k := Find(t, [c]);
    FindUncut(s, c);
    RemoveAllStep(s, [c]);
    RemoveAllStep(t, [c]);
    if k >= 0 {
      var pre := t[..k];
      var rest := RemoveAll(t[k + 1..], [c]);
      SliceCons(s, k);
      assert RemoveAll(s, [c]) == ([s[0]] + pre) + rest;
      assert RemoveAll(t, [c]) == pre + rest;
    } else {
      assert s == [s[0]] + t;
    }
  }

  /** Slicing past the first character of `s`. */
  lemma SliceCons(s: string, k: nat)
    requires k + 1 < |s|
    ensures s[..k + 1] == [s[0]] + s[1..][..k]
    ensures s[k + 2..] == s[1..][k + 1..]
  {
  }

  /** Find skips a leading character other than `c`. */
  lemma FindUncut(s: string, c: char)
    requires |s| > 0 && s[0] != c
    ensures Find(s, [c]) == if Find(s[1..], [c]) < 0 then -1 else Find(s[1..], [c]) + 1
  {
    assert s[..1] != [c];
  }

  /** Removing `t` is joining the fields of a split on `t` with nothing between them. */
  lemma {:induction false} RemoveAllIsJoinOfSplit(s: string, t: string)
    requires t != []
    ensures RemoveAll(s, t) == Join(Split(s, t), "")
    decreases |s|
  {
    var i := Find(s, t);
    RemoveAllStep(s, t);
    if i >= 0 {
      var rest := s[i + |t|..];
      calc {
        RemoveAll(s, t);
        s[..i] + RemoveAll(rest, t);
        { RemoveAllIsJoinOfSplit(rest, t); }
        s[..i] + Join(Split(rest, t), "");
        { JoinConcat(s[..i], Split(rest, t)); }
        Join([s[..i]] + Split(rest, t), "");
        { SplitStep(s, t); }
        Join(Split(s, t), "");
      }
    } else {
      SplitWhole(s, t);
    }
  }

  /** A copy of `t` placed in front of the text is removed and nothing else changes. */
  lemma RemoveAllLeading(t: string, s: string)
    requires t != []
    ensures RemoveAll(t + s, t) == RemoveAll(s, t)
  {
    assert OccursAt(t + s, t, 0);
    assert (t + s)[|t|..] == s;
  }

  /**
   * Removal is not idempotent: a copy of `t` cut open by another copy of `t`
   * closes up once the inner copy is removed, whenever the first two characters differ.
   */
  lemma RemoveAllSplices(t: string)
    requires |t| >= 2 && t[0] != t[1]
    ensures RemoveAll(t[..1] + t + t[1..], t) == t
    ensures RemoveAll(RemoveAll(t[..1] + t + t[1..], t), t) == ""
  {
    var x := t[..1] + t + t[1..];
    assert x[1..1 + |t|] == t;
    assert !OccursAt(x, t, 0) by { assert x[..|t|][1] == x[1] == t[0]; }
    FindIs(x, t, 1);
    assert x[..1] == t[..1];
    assert x[1 + |t|..] == t[1..];
    assert Find(t[1..], t) == -1;
    assert t[..1] + t[1..] == t;
    assert RemoveAll(x, t) == t;
    assert t[..|t|] == t;
    assert t[|t|..] == "";
    assert RemoveAll(t, t) == "" + RemoveAll("", t);
  }

  /** Drops leading copies of `c`. */
  function StripLeft(s: string, c: char): (r: string)
    ensures |r| <= |s| && r == s[|s| - |r|..]
    ensures forall k :: 0 <= k < |s| - |r| ==> s[k] == c
    ensures r == [] || r[0] != c
  {
    if |s| > 0 && s[0] == c then StripLeft(s[1..], c) else s
  }

  /** Drops trailing copies of `c`. */
  function StripRight(s: string, c: char): (r: string)
    ensures |r| <= |s| && r == s[..|r|]
    ensures forall k :: |r| <= k < |s| ==> s[k] == c
    ensures r == [] || r[|r| - 1] != c
  {
    if |s| > 0 && s[|s| - 1] == c then StripRight(s[..|s| - 1], c) else s
  }

  /** `r` is the slice of `s` at `i`, and everything of `s` outside it is `c`. */
  ghost predicate TrimmedAt(s: string, c: char, i: int, r: string) {
    0 <= i <= |s| - |r| && r == s[i..i + |r|] &&
    (forall k :: 0 <= k < i ==> s[k] == c) && (forall k :: i + |r| <= k < |s| ==> s[k] == c)
  }

  /** Trimming the right of the left-trimmed text leaves a slice with `c` all around it. */
  lemma StripTrims(s: string, c: char, l: string, r: string)
    requires l == StripLeft(s, c) && r == StripRight(l, c)
    ensures r == [] || r[0] != c
    ensures TrimmedAt(s, c, |s| - |l|, r)
  {
    StripSlice(s, c, l, r);
    StripTail(s, c, l, r);
  }

  lemma StripSlice(s: string, c: char, l: string, r: string)
    requires l == StripLeft(s, c) && r == StripRight(l, c)
    ensures r == [] || r[0] != c
    ensures r == s[|s| - |l|..|s| - |l| + |r|]
  {
    assert r == l[..|r|];
    if r != [] {
      assert r[0] == l[0];
    }
  }

  lemma StripTail(s: string, c: char, l: string, r: string)
    requires l == StripLeft(s, c) && r == StripRight(l, c)
    ensures forall k :: |s| - |l| + |r| <= k < |s| ==> s[k] == c
  {
    var i := |s| - |l|;
    forall k | i + |r| <= k < |s| ensures s[k] == c {
      assert s[k] == l[k - i];
    }
  }

  /** Python's `s.strip(c)` for one character `c`: trims `c` from both ends. */
  function Strip(s: string, c: char): (r: string)
    ensures |r| <= |s|
    ensures r == [] || (r[0] != c && r[|r| - 1] != c)
    ensures TrimmedAt(s, c, |s| - |StripLeft(s, c)|, r)
  {
    var l := StripLeft(s, c);
    var r := StripRight(l, c);
    StripTrims(s, c, l, r);
    r
  }

  /** The lines of a process output: Python's `out.split('\n')[:-1]`. */
  function Lines(out: string): (r: seq<string>)
    ensures forall k :: 0 <= k < |r| ==> '\n' !in r[k]
    ensures |r| == |Split(out, "\n")| - 1
    ensures forall k :: 0 <= k < |r| ==> r[k] == Split(out, "\n")[k]
  {
    var p := Split(out, "\n");
    SplitFieldsFree(out, "\n");
    forall k | 0 <= k < |p| ensures '\n' !in p[k] { ContainsChar(p[k], '\n'); }
    p[..|p| - 1]
  }

  /** Python's `out.split('\n')[0]`. */
  function FirstLine(out: string): (r: string)
    ensures '\n' !in r
    ensures |r| <= |out| && r == out[..|r|]
    ensures |r| == |out| || out[|r|] == '\n'
  {
    ContainsChar(Split(out, "\n")[0], '\n');
    SplitFields(out, "\n");
    Split(out, "\n")[0]
  }

  /** Lines written one per line, each ending in a newline, are read back unchanged. */
  lemma LinesOfJoin(lines: seq<string>)
    requires forall k :: 0 <= k < |lines| ==> '\n' !in lines[k]
    ensures Lines(Join(lines + [""], "\n")) == lines
  {
    var parts := lines + [""];
    forall k | 0 <= k < |parts| ensures '\n' !in parts[k] {
      if k < |lines| { assert parts[k] == lines[k]; }
    }
    SplitJoinChar(parts, '\n');
  }
}
