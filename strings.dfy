/**
 * String primitives used by the plugin: prefix tests, PHP `strpos`-style
 * containment, PHP `str_replace` (left-to-right, non-overlapping replace-all),
 * and splitting/joining on a separator as PHP `explode`/`implode` and
 * JavaScript `split`/`join` do.
 */
module Strings {

  predicate StartsWith(s: string, p: string)
  {
    |p| <= |s| && s[..|p|] == p
  }

  /** `p` occurs in `s` at index `i`. */
  predicate OccursAt(s: string, p: string, i: int)
  {
    0 <= i && i + |p| <= |s| && s[i..i + |p|] == p
  }

  /** `strpos(s, p) !== false`, JavaScript `s.indexOf(p) > -1`. */
  predicate Contains(s: string, p: string)
    decreases |s|
  {
    StartsWith(s, p) || (|s| > 0 && Contains(s[1..], p))
  }

  lemma {:induction false} StartsWithOccursAt(s: string, p: string, i: int)
    requires 0 <= i <= |s|
    ensures StartsWith(s[i..], p) <==> OccursAt(s, p, i)
  {
    if StartsWith(s[i..], p) {
      assert s[i..][..|p|] == s[i..i + |p|];
    }
    if OccursAt(s, p, i) {
      assert s[i..][..|p|] == s[i..i + |p|];
    }
  }

  /** `Contains` is exactly "occurs at some index". */
  lemma {:induction false} ContainsIff(s: string, p: string)
    ensures Contains(s, p) <==> exists i :: OccursAt(s, p, i)
    decreases |s|
  {
    StartsWithOccursAt(s, p, 0);
    assert s[0..] == s;
    if |s| > 0 {
      ContainsIff(s[1..], p);
      forall i | OccursAt(s[1..], p, i) ensures OccursAt(s, p, i + 1) {
        assert s[1..][i..i + |p|] == s[i + 1..i + 1 + |p|];
      }
      forall i | OccursAt(s, p, i) && i > 0 ensures OccursAt(s[1..], p, i - 1) {
        assert s[1..][i - 1..i - 1 + |p|] == s[i..i + |p|];
      }
    } else {
      forall i | OccursAt(s, p, i) ensures i == 0 { }
    }
  }

  /** A needle with a character the haystack lacks cannot occur in it. */
  lemma MissingCharNotContained(s: string, p: string, c: char)
    requires c in p && c !in s
    ensures !Contains(s, p)
  {
    ContainsIff(s, p);
  }

  /** PHP `str_replace(find, rep, s)` for one search string. An empty search
      string leaves the subject unchanged. */
  function ReplaceAll(s: string, find: string, rep: string): string
    decreases |s|
  {
    if find == [] || |s| < |find| then s
    else if s[..|find|] == find then rep + ReplaceAll(s[|find|..], find, rep)
    else [s[0]] + ReplaceAll(s[1..], find, rep)
  }

  /** Nothing to replace: the subject comes back unchanged. */
  lemma {:induction false} ReplaceAllAbsent(s: string, find: string, rep: string)
    requires !Contains(s, find)
    ensures ReplaceAll(s, find, rep) == s
    decreases |s|
  {
    if find == [] || |s| < |find| {
    } else {
      assert !StartsWith(s, find);
      ReplaceAllAbsent(s[1..], find, rep);
    }
  }

  /** Replacing a string with itself changes nothing. */
  lemma {:induction false} ReplaceAllSelf(s: string, find: string)
    ensures ReplaceAll(s, find, find) == s
    decreases |s|
  {
    if find == [] || |s| < |find| {
    } else if s[..|find|] == find {
      ReplaceAllSelf(s[|find|..], find);
      assert s == s[..|find|] + s[|find|..];
    } else {
      ReplaceAllSelf(s[1..], find);
      assert s == [s[0]] + s[1..];
    }
  }

  /** An occurrence at the very start is replaced, and the rest after it. */
  lemma ReplaceAllAtStart(find: string, rest: string, rep: string)
    requires find != []
    ensures ReplaceAll(find + rest, find, rep) == rep + ReplaceAll(rest, find, rep)
  {
    var s := find + rest;
    assert s[..|find|] == find;
    assert s[|find|..] == rest;
  }

  /** The leftmost occurrence is replaced first: when `find` does not occur
      before index |a| in `a + find + b`, the result is `a`, then `rep`, then
      the replacement of `b`. */
  lemma {:induction false} ReplaceAllFirst(a: string, find: string, b: string, rep: string)
    requires find != []
    requires forall i :: 0 <= i < |a| ==> !OccursAt(a + find + b, find, i)
    ensures ReplaceAll(a + find + b, find, rep) == a + rep + ReplaceAll(b, find, rep)
    decreases |a|
  {
    var s := a + find + b;
    if a == [] {
      assert s == find + b;
      assert s[..|find|] == find;
      assert s[|find|..] == b;
    } else {
      assert !OccursAt(s, find, 0);
      assert s[..|find|] != find by {
        assert s[0..|find|] == s[..|find|];
      }
      assert s[1..] == a[1..] + find + b;
      forall i | 0 <= i < |a[1..]| ensures !OccursAt(a[1..] + find + b, find, i) {
        assert !OccursAt(s, find, i + 1);
        assert (a[1..] + find + b)[i..i + |find|] == s[i + 1..i + 1 + |find|];
      }
      ReplaceAllFirst(a[1..], find, b, rep);
      assert [s[0]] + (a[1..] + rep + ReplaceAll(b, find, rep)) == a + rep + ReplaceAll(b, find, rep);
    }
  }

  /** Position of the first `c` in `s`, or |s| when there is none. */
  function IndexOf(s: string, c: char): (k: nat)
    ensures k <= |s|
    ensures k < |s| ==> s[k] == c
    ensures forall i :: 0 <= i < k ==> s[i] != c
    decreases |s|
  {
    if s == [] then 0
    else if s[0] == c then 0
    else 1 + IndexOf(s[1..], c)
  }

  /** `IndexOf` reaches the end exactly when `c` does not occur. */
  lemma IndexOfEnd(s: string, c: char)
    ensures IndexOf(s, c) == |s| <==> c !in s
  {
    var k := IndexOf(s, c);
    if k < |s| {
      assert s[k] == c;
    }
  }

  /** The index of the separator in `a + [c] + b` when `a` has none. */
  lemma IndexOfFirst(a: string, c: char, b: string)
    requires c !in a
    ensures IndexOf(a + [c] + b, c) == |a|
  {
    var s := a + [c] + b;
    assert s[|a|] == c;
    forall i | 0 <= i < |a| ensures s[i] != c {
      assert s[i] == a[i];
    }
  }

  /** JavaScript `s.split(d)` / PHP `explode(d, s)` on a one-character
      separator: always at least one part; "" splits into [""]. */
  function Split(s: string, d: char): (parts: seq<string>)
    ensures |parts| >= 1
    decreases |s|
  {
    if s == [] then [[]]
    else
      var rest := Split(s[1..], d);
      if s[0] == d then [[]] + rest else [[s[0]] + rest[0]] + rest[1..]
  }

  /** `implode(sep, parts)` / `parts.join(sep)`. */
  function Join(parts: seq<string>, sep: string): string
    decreases |parts|
  {
    if parts == [] then []
    else if |parts| == 1 then parts[0]
    else parts[0] + sep + Join(parts[1..], sep)
  }

  /** No part of a split contains the separator. */
  lemma {:induction false} SplitPartsFree(s: string, d: char)
    ensures forall i :: 0 <= i < |Split(s, d)| ==> d !in Split(s, d)[i]
    decreases |s|
  {
    if s != [] {
      SplitPartsFree(s[1..], d);
    }
  }

  /** Joining the parts of a split with the separator gives the string back. */
  lemma {:induction false} JoinSplit(s: string, d: char)
    ensures Join(Split(s, d), [d]) == s
    decreases |s|
  {
    if s != [] {
      var rest := Split(s[1..], d);
      JoinSplit(s[1..], d);
      if s[0] == d {
        assert Split(s, d) == [[]] + rest;
        assert Join([[]] + rest, [d]) == [] + [d] + Join(rest, [d]);
        assert s == [d] + s[1..];
      } else {
        var parts := [[s[0]] + rest[0]] + rest[1..];
        if |rest| == 1 {
          assert Join(parts, [d]) == [s[0]] + rest[0];
        } else {
          assert Join(rest, [d]) == rest[0] + [d] + Join(rest[1..], [d]);
          assert parts[1..] == rest[1..];
          assert Join(parts, [d]) == [s[0]] + rest[0] + [d] + Join(rest[1..], [d]);
        }
        assert s == [s[0]] + s[1..];
      }
    }
  }

  /** Exactly one part exactly when the separator does not occur. */
  lemma {:induction false} SplitSingle(s: string, d: char)
    ensures |Split(s, d)| == 1 <==> d !in s
    ensures d !in s ==> Split(s, d) == [s]
    decreases |s|
  {
    if s != [] {
      SplitSingle(s[1..], d);
      if d !in s {
        assert d !in s[1..];
        assert s == [s[0]] + s[1..];
      }
    }
  }

  /** Splitting `a + [d] + b` where `b` has no separator appends `b` as a part. */
  lemma {:induction false} SplitAppend(a: string, d: char, b: string)
    requires d !in b
    ensures Split(a + [d] + b, d) == Split(a, d) + [b]
    decreases |a|
  {
    var s := a + [d] + b;
    if a == [] {
      assert s == [d] + b;
      assert s[1..] == b;
      SplitSingle(b, d);
    } else {
      assert s[1..] == a[1..] + [d] + b;
      SplitAppend(a[1..], d, b);
      assert s[0] == a[0];
    }
  }

  /** Joining with a separator of a list of two or more parts puts that
      separator into the result. */
  lemma {:induction false} JoinNonEmpty(parts: seq<string>, sep: string)
    requires sep != []
    ensures Join(parts, sep) == [] <==> parts == [] || (|parts| == 1 && parts[0] == [])
  {
    if |parts| >= 2 {
      assert |Join(parts, sep)| >= |sep|;
    }
  }

  /** `Join(parts + [x], sep)` appends the separator and `x`. */
  lemma {:induction false} JoinAppend(parts: seq<string>, x: string, sep: string)
    requires parts != []
    ensures Join(parts + [x], sep) == Join(parts, sep) + sep + x
    decreases |parts|
  {
    if |parts| == 1 {
      assert Join(parts + [x], sep) == parts[0] + sep + Join([x], sep);
    } else {
      assert (parts + [x])[1..] == parts[1..] + [x];
      JoinAppend(parts[1..], x, sep);
      assert Join(parts + [x], sep) == parts[0] + sep + Join(parts[1..] + [x], sep);
    }
  }

  /** Splitting `a + [d] + b` where `a` has no separator gives `a`, then the
      parts of `b`. */
  lemma {:induction false} SplitPrefix(a: string, d: char, b: string)
    requires d !in a
    ensures Split(a + [d] + b, d) == [a] + Split(b, d)
    decreases |a|
  {
    var s := a + [d] + b;
    if a == [] {
      assert s == [d] + b;
      assert s[1..] == b;
    } else {
      assert s[1..] == a[1..] + [d] + b;
      SplitPrefix(a[1..], d, b);
      assert s[0] == a[0];
      assert [a[0]] + a[1..] == a;
    }
  }

  /** Splitting the join of separator-free parts gives the parts back. */
  lemma {:induction false} SplitJoin(parts: seq<string>, d: char)
    requires |parts| >= 1
    requires forall i :: 0 <= i < |parts| ==> d !in parts[i]
    ensures Split(Join(parts, [d]), d) == parts
    decreases |parts|
  {
    if |parts| == 1 {
      SplitSingle(parts[0], d);
    } else {
      SplitJoin(parts[1..], d);
      SplitPrefix(parts[0], d, Join(parts[1..], [d]));
      assert [parts[0]] + parts[1..] == parts;
    }
  }

  /** An occurrence of `p + r` is an occurrence of `p`. */
  lemma OccursAtPrefix(s: string, p: string, r: string, i: int)
    requires OccursAt(s, p + r, i)
    ensures OccursAt(s, p, i)
  {
    assert s[i..i + |p|] == s[i..i + |p + r|][..|p|];
  }

  /** An occurrence in `b` is an occurrence in `a + b`, shifted by |a|. */
  lemma OccursInSuffix(a: string, b: string, p: string, k: int)
    requires OccursAt(b, p, k)
    ensures OccursAt(a + b, p, |a| + k)
  {
    assert (a + b)[|a| + k..|a| + k + |p|] == b[k..k + |p|];
  }

  /** Text that contains `p + r` contains `p`. */
  lemma ContainsPrefixOf(s: string, p: string, r: string)
    ensures Contains(s, p + r) ==> Contains(s, p)
  {
    if Contains(s, p + r) {
      ContainsIff(s, p + r);
      ContainsIff(s, p);
      var i :| OccursAt(s, p + r, i);
      OccursAtPrefix(s, p, r, i);
    }
  }

  lemma ContainsSelf(s: string)
    ensures Contains(s, s)
  {
    assert s[..|s|] == s;
  }

  lemma ContainsInLeft(a: string, b: string, p: string)
    requires Contains(a, p)
    ensures Contains(a + b, p)
  {
    ContainsIff(a, p);
    ContainsIff(a + b, p);
    var i :| OccursAt(a, p, i);
    assert (a + b)[i..i + |p|] == a[i..i + |p|];
    assert OccursAt(a + b, p, i);
  }

  lemma ContainsInRight(a: string, b: string, p: string)
    requires Contains(b, p)
    ensures Contains(a + b, p)
  {
    ContainsIff(b, p);
    ContainsIff(a + b, p);
    var k :| OccursAt(b, p, k);
    OccursInSuffix(a, b, p, k);
    assert OccursAt(a + b, p, |a| + k);
  }

  /** Containment is transitive. */
  lemma ContainsTrans(s: string, t: string, p: string)
    ensures Contains(s, t) && Contains(t, p) ==> Contains(s, p)
  {
    if Contains(s, t) && Contains(t, p) {
      ContainsIff(s, t);
      ContainsIff(t, p);
      ContainsIff(s, p);
      var i :| OccursAt(s, t, i);
      var j :| OccursAt(t, p, j);
      forall k | 0 <= k < |p|
        ensures s[i + j + k] == p[k]
      {
        assert s[i + j + k] == s[i..i + |t|][j + k];
        assert t[j + k] == t[j..j + |p|][k];
      }
      assert s[i + j..i + j + |p|] == p;
      assert OccursAt(s, p, i + j);
    }
  }
}
