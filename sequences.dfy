/**
 * Generic list and string operations the core relies on: `index` (with its
 * ValueError), `split` on a separator, `join` with a separator, and `sorted`.
 * Splitting a list at every zero (my_array.py) and splitting a path at every
 * '/' (main.py) are the same operation, so it is defined once here.
 */
module Sequences {
  import opened Wrappers

  /** `s.index(x)`: the first position of `x`, or None where Python raises ValueError. */
  function Find<T(==)>(s: seq<T>, x: T): (r: Option<nat>)
    ensures r.None? <==> x !in s
    ensures r.Some? ==> r.value < |s| && s[r.value] == x && x !in s[..r.value]
  {
    if s == [] then None
    else if s[0] == x then Some(0)
    else match Find(s[1..], x)
      case None => None
      case Some(i) =>
        assert s[1..][..i] == s[1..i + 1];
        assert s[..i + 1] == [s[0]] + s[1..i + 1];
        Some(i + 1)
  }

  /** The pieces between occurrences of `sep`, as Python's `str.split(sep)` returns them. */
  function Split<T(==)>(s: seq<T>, sep: T): (pieces: seq<seq<T>>)
    ensures |pieces| >= 1
    decreases |s|
  {
    match Find(s, sep)
    case None => [s]
    case Some(i) => [s[..i]] + Split(s[i + 1..], sep)
  }

  /** The parts with one `sep` between each two neighbours, as Python's `sep.join(parts)`. */
  function Join<T>(parts: seq<seq<T>>, sep: T): seq<T>
  {
    if parts == [] then []
    else if |parts| == 1 then parts[0]
    else parts[0] + [sep] + Join(parts[1..], sep)
  }

  /** All parts one after another, as Python's `"".join(parts)`. */
  function Concat<T>(parts: seq<seq<T>>): seq<T>
  {
    if parts == [] then [] else parts[0] + Concat(parts[1..])
  }

  /** No part contains `sep`. */
  predicate SepFree<T(==)>(parts: seq<seq<T>>, sep: T)
  {
    forall i :: 0 <= i < |parts| ==> sep !in parts[i]
  }

  /** One step of Split: the piece before the first separator, then the rest. */
  lemma SplitAt<T>(s: seq<T>, sep: T, i: nat)
    requires i < |s| && s[i] == sep && sep !in s[..i]
    ensures Split(s, sep) == [s[..i]] + Split(s[i + 1..], sep)
  {
    match Find(s, sep)
    case None =>
    case Some(j) =>
  }

  /** The first piece is `a` (free of `sep`) exactly when the input is `a`
      itself or starts with `a` followed by a separator. */
  lemma SplitHead<T>(s: seq<T>, sep: T, a: seq<T>)
    requires sep !in a
    ensures Split(s, sep)[0] == a <==> s == a || (|s| > |a| && s[..|a| + 1] == a + [sep])
  {
    var head := Split(s, sep)[0];
    var r := Find(s, sep);
    if r.None? {
      assert head == s;
      assert forall k :: 0 <= k < |s| ==> s[k] != sep;
      assert |s| > |a| ==> (a + [sep])[|a|] == sep;
    } else {
      var i := r.value;
      SplitAt(s, sep, i);
      assert head == s[..i];
      PrefixThenSep(s, sep, a, i);
    }
  }

  /** Helper for SplitHead: with the first separator of `s` at `i`, the piece
      before it is `a` exactly when `s` starts with `a` and a separator. */
  lemma PrefixThenSep<T>(s: seq<T>, sep: T, a: seq<T>, i: nat)
    requires sep !in a
    requires i < |s| && s[i] == sep && sep !in s[..i]
    ensures s[..i] == a <==> s == a || (|s| > |a| && s[..|a| + 1] == a + [sep])
  {
    if s[..i] == a {
      assert s[..|a| + 1] == s[..i] + [s[i]];
    }
    if |s| > |a| && s[..|a| + 1] == a + [sep] {
      assert s[|a|] == (a + [sep])[|a|];
      assert s[..i] == s[..|a| + 1][..|a|];
    }
  }

  /** Splitting yields one piece more than there are separators. */
  lemma {:induction false} SplitCount<T>(s: seq<T>, sep: T)
    ensures |Split(s, sep)| == multiset(s)[sep] + 1
    decreases |s|
  {
    match Find(s, sep)
    case None =>
    case Some(i) =>
      assert s == s[..i] + [sep] + s[i + 1..];
      SplitCount(s[i + 1..], sep);
  }

  /** No piece contains the separator. */
  lemma {:induction false} SplitSepFree<T>(s: seq<T>, sep: T)
    ensures SepFree(Split(s, sep), sep)
    decreases |s|
  {
    match Find(s, sep)
    case None =>
    case Some(i) =>
      SplitSepFree(s[i + 1..], sep);
      var rest := Split(s[i + 1..], sep);
      assert Split(s, sep) == [s[..i]] + rest;
      forall k | 0 <= k < |Split(s, sep)| ensures sep !in Split(s, sep)[k] {
        if k > 0 { assert Split(s, sep)[k] == rest[k - 1]; }
      }
  }

  /** Joining the pieces back with the separator restores the input. */
  lemma {:induction false} JoinSplit<T>(s: seq<T>, sep: T)
    ensures Join(Split(s, sep), sep) == s
    decreases |s|
  {
    match Find(s, sep)
    case None =>
    case Some(i) =>
      JoinSplit(s[i + 1..], sep);
      var rest := Split(s[i + 1..], sep);
      assert Split(s, sep)[1..] == rest;
      assert s == s[..i] + [sep] + s[i + 1..];
  }

  /** Splitting a join of separator-free parts restores the parts. */
  lemma {:induction false} SplitJoin<T>(parts: seq<seq<T>>, sep: T)
    requires |parts| >= 1 && SepFree(parts, sep)
    ensures Split(Join(parts, sep), sep) == parts
    decreases |parts|
  {
    if |parts| == 1 {
      assert sep !in parts[0];
    } else {
      var s := Join(parts, sep);
      var p := parts[0];
      assert sep !in p;
      assert s == p + [sep] + Join(parts[1..], sep);
      assert s[..|p|] == p;
      assert s[|p| + 1..] == Join(parts[1..], sep);
      SplitAt(s, sep, |p|);
      assert SepFree(parts[1..], sep) by {
        forall k | 0 <= k < |parts[1..]| ensures sep !in parts[1..][k] {
          assert parts[1..][k] == parts[k + 1];
        }
      }
      SplitJoin(parts[1..], sep);
    }
  }

  /** A join of non-empty separator-free parts neither starts nor ends with the
      separator, and never holds two separators side by side. */
  lemma {:induction false} JoinSpacing<T>(parts: seq<seq<T>>, sep: T)
    requires |parts| >= 1 && SepFree(parts, sep)
    requires forall i :: 0 <= i < |parts| ==> parts[i] != []
    ensures var s := Join(parts, sep);
      && s != [] && s[0] != sep && s[|s| - 1] != sep
      && forall k :: 0 <= k < |s| - 1 && s[k] == sep ==> s[k + 1] != sep
    decreases |parts|
  {
    var p := parts[0];
    assert p != [] && sep !in p;
    assert p[0] in p;
    if |parts| == 1 {
      assert p[|p| - 1] in p;
    } else {
      var tail := parts[1..];
      assert SepFree(tail, sep) by {
        forall k | 0 <= k < |tail| ensures sep !in tail[k] { assert tail[k] == parts[k + 1]; }
      }
      assert forall i :: 0 <= i < |tail| ==> tail[i] != [] by {
        forall i | 0 <= i < |tail| ensures tail[i] != [] { assert tail[i] == parts[i + 1]; }
      }
      JoinSpacing(tail, sep);
      var t := Join(tail, sep);
      var s := Join(parts, sep);
      assert s == p + [sep] + t;
      forall k | 0 <= k < |s| - 1 && s[k] == sep ensures s[k + 1] != sep {
        if k < |p| {
          assert false;
        } else if k == |p| {
          assert s[k + 1] == t[0];
        } else {
          assert s[k] == t[k - |p| - 1] && s[k + 1] == t[k - |p|];
        }
      }
      assert s[0] == p[0];
      assert s[|s| - 1] == t[|t| - 1];
    }
  }

  /** Without its separators, a join holds exactly the elements of its parts. */
  lemma {:induction false} JoinMultiset<T>(parts: seq<seq<T>>, sep: T)
    requires SepFree(parts, sep)
    ensures multiset(Join(parts, sep))[sep := 0] == multiset(Concat(parts))
    decreases |parts|
  {
    if parts == [] {
    } else if |parts| == 1 {
      assert Concat(parts) == parts[0] + Concat([]);
      assert sep !in parts[0];
      assert multiset(parts[0])[sep] == 0;
    } else {
      var p := parts[0];
      var tail := parts[1..];
      assert sep !in p;
      assert SepFree(tail, sep) by {
        forall k | 0 <= k < |tail| ensures sep !in tail[k] { assert tail[k] == parts[k + 1]; }
      }
      JoinMultiset(tail, sep);
      assert multiset(p)[sep] == 0;
      assert multiset(Join(parts, sep)) == multiset(p) + multiset{sep} + multiset(Join(tail, sep));
      assert multiset(Concat(parts)) == multiset(p) + multiset(Concat(tail));
    }
  }

  /** An element that no part holds is not in their concatenation. */
  lemma {:induction false} ConcatSepFree<T>(parts: seq<seq<T>>, x: T)
    requires SepFree(parts, x)
    ensures x !in Concat(parts)
    decreases |parts|
  {
    if parts != [] {
      var tail := parts[1..];
      assert x !in parts[0];
      assert SepFree(tail, x) by {
        forall k | 0 <= k < |tail| ensures x !in tail[k] { assert tail[k] == parts[k + 1]; }
      }
      ConcatSepFree(tail, x);
    }
  }

  /** Concatenations of part-wise permutations are permutations of each other. */
  lemma {:induction false} ConcatMultiset<T>(a: seq<seq<T>>, b: seq<seq<T>>)
    requires |a| == |b| && forall i :: 0 <= i < |a| ==> multiset(a[i]) == multiset(b[i])
    ensures multiset(Concat(a)) == multiset(Concat(b))
    decreases |a|
  {
    if a != [] {
      assert multiset(a[0]) == multiset(b[0]);
      assert forall i :: 0 <= i < |a[1..]| ==> multiset(a[1..][i]) == multiset(b[1..][i]) by {
        forall i | 0 <= i < |a[1..]| ensures multiset(a[1..][i]) == multiset(b[1..][i]) {
          assert a[1..][i] == a[i + 1] && b[1..][i] == b[i + 1];
        }
      }
      ConcatMultiset(a[1..], b[1..]);
    }
  }

  /** Ascending order. */
  predicate Sorted(s: seq<int>)
  {
    forall i, j :: 0 <= i < j < |s| ==> s[i] <= s[j]
  }

  /** `x` placed into sorted `s` just before the first larger element. */
  function Insert(x: int, s: seq<int>): (r: seq<int>)
    requires Sorted(s)
    ensures Sorted(r) && multiset(r) == multiset(s) + multiset{x}
  {
    if s == [] || x <= s[0] then
      [x] + s
    else
      var rest := Insert(x, s[1..]);
      assert s == [s[0]] + s[1..];
      assert forall k :: 0 <= k < |rest| ==> s[0] <= rest[k] by {
        forall k | 0 <= k < |rest| ensures s[0] <= rest[k] {
          assert rest[k] in multiset(rest);
        }
      }
      [s[0]] + rest
  }

  /** Python's `sorted`: an ascending permutation of `s`. */
  function Sort(s: seq<int>): (r: seq<int>)
    ensures Sorted(r) && multiset(r) == multiset(s)
  {
    if s == [] then []
    else
      assert s == [s[0]] + s[1..];
      Insert(s[0], Sort(s[1..]))
  }
}
