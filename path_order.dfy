/** The order in which canonical paths are sorted before hashing.

    A canonical path is absolute and free of `.`/`..` and repeated
    separators, so it is determined by the sequence of its components after
    the root. Rust's `PathBuf` orders paths component by component, and
    compares two components by their bytes; for UTF-8 text, byte order is the
    order of the encoded code points, which is Dafny's order on `char`. */
module PathOrder {

  /** A canonical absolute path: its components after the root directory. */
  type Path = seq<string>

  /** Lexicographic order on strings, a prefix coming first. */
  predicate StrLe(a: string, b: string)
  {
    |a| == 0 || (|b| > 0 && (a[0] < b[0] || (a[0] == b[0] && StrLe(a[1..], b[1..]))))
  }

  /** Component-wise lexicographic order on paths, a prefix coming first. */
  predicate PathLe(a: Path, b: Path)
  {
    |a| == 0 || (|b| > 0 && ((StrLe(a[0], b[0]) && a[0] != b[0]) || (a[0] == b[0] && PathLe(a[1..], b[1..]))))
  }

  lemma {:induction false} StrLeReflexive(a: string)
    ensures StrLe(a, a)
  {
    if |a| > 0 { StrLeReflexive(a[1..]); }
  }

  lemma {:induction false} StrLeAntisymmetric(a: string, b: string)
    requires StrLe(a, b) && StrLe(b, a)
    ensures a == b
  {
    if |a| > 0 {
      StrLeAntisymmetric(a[1..], b[1..]);
      assert a == [a[0]] + a[1..] && b == [b[0]] + b[1..];
    }
  }

  lemma {:induction false} StrLeTransitive(a: string, b: string, c: string)
    requires StrLe(a, b) && StrLe(b, c)
    ensures StrLe(a, c)
  {
    if |a| > 0 && a[0] == b[0] && b[0] == c[0] {
      StrLeTransitive(a[1..], b[1..], c[1..]);
    }
  }

  lemma {:induction false} StrLeTotal(a: string, b: string)
    ensures StrLe(a, b) || StrLe(b, a)
  {
    if |a| > 0 && |b| > 0 && a[0] == b[0] {
      StrLeTotal(a[1..], b[1..]);
    }
  }

  lemma {:induction false} PathLeReflexive(a: Path)
    ensures PathLe(a, a)
  {
    if |a| > 0 { PathLeReflexive(a[1..]); }
  }

  lemma {:induction false} PathLeAntisymmetric(a: Path, b: Path)
    requires PathLe(a, b) && PathLe(b, a)
    ensures a == b
  {
    if |a| > 0 {
      if a[0] != b[0] {
        StrLeAntisymmetric(a[0], b[0]);
      }
      PathLeAntisymmetric(a[1..], b[1..]);
      assert a == [a[0]] + a[1..] && b == [b[0]] + b[1..];
    }
  }

  lemma {:induction false} PathLeTransitive(a: Path, b: Path, c: Path)
    requires PathLe(a, b) && PathLe(b, c)
    ensures PathLe(a, c)
  {
    if |a| > 0 {
      if a[0] == b[0] && b[0] == c[0] {
        PathLeTransitive(a[1..], b[1..], c[1..]);
      } else if a[0] != b[0] && b[0] != c[0] {
        StrLeTransitive(a[0], b[0], c[0]);
        if a[0] == c[0] {
          StrLeAntisymmetric(a[0], b[0]);
        }
      }
    }
  }

  lemma {:induction false} PathLeTotal(a: Path, b: Path)
    ensures PathLe(a, b) || PathLe(b, a)
  {
    if |a| > 0 && |b| > 0 {
      if a[0] == b[0] {
        PathLeTotal(a[1..], b[1..]);
      } else {
        StrLeTotal(a[0], b[0]);
      }
    }
  }

  ghost predicate Sorted(s: seq<Path>)
  {
    forall i, j :: 0 <= i < j < |s| ==> PathLe(s[i], s[j])
  }

  /** Puts `x` into its place in `s`. */
  function Insert(x: Path, s: seq<Path>): (r: seq<Path>)
    ensures multiset(r) == multiset(s) + multiset{x}
    ensures Sorted(s) ==> Sorted(r)
  {
    if s == [] then [x]
    else if PathLe(x, s[0]) then
      InsertFront(x, s);
      [x] + s
    else
      PathLeTotal(x, s[0]);
      var rest := Insert(x, s[1..]);
      assert s == [s[0]] + s[1..];
      InsertBehind(s[0], x, s[1..], rest);
      [s[0]] + rest
  }

  lemma InsertFront(x: Path, s: seq<Path>)
    requires s != [] && PathLe(x, s[0])
    ensures Sorted(s) ==> Sorted([x] + s)
  {
    if Sorted(s) {
        forall i, j | 0 <= i < j < |[x] + s|
        ensures PathLe(([x] + s)[i], ([x] + s)[j])
      {
        if i == 0 && j > 1 { PathLeTransitive(x, s[0], s[j - 1]); }
      }
    }
  }

  lemma InsertBehind(h: Path, x: Path, t: seq<Path>, rest: seq<Path>)
    requires PathLe(h, x) && multiset(rest) == multiset(t) + multiset{x}
    ensures Sorted([h] + t) && Sorted(rest) ==> Sorted([h] + rest)
  {
    if Sorted([h] + t) && Sorted(rest) {
      forall k | 0 <= k < |rest| ensures PathLe(h, rest[k]) {
        assert rest[k] in multiset(rest);
        if rest[k] != x {
          assert rest[k] in multiset(t);
          var m :| 0 <= m < |t| && t[m] == rest[k];
          assert ([h] + t)[0] == h && ([h] + t)[m + 1] == t[m];
        }
      }
      forall i, j | 0 <= i < j < |[h] + rest|
        ensures PathLe(([h] + rest)[i], ([h] + rest)[j])
      {
        if i > 0 { assert ([h] + rest)[i] == rest[i - 1]; }
        assert ([h] + rest)[j] == rest[j - 1];
      }
    }
  }

  /** The sorted arrangement of `s` (Rust's `sort` is stable, but equal
      canonical paths are identical, so stability is not observable). */
  function SortPaths(s: seq<Path>): (r: seq<Path>)
    ensures Sorted(r) && multiset(r) == multiset(s)
  {
    if s == [] then []
    else
      assert s == [s[0]] + s[1..];
      Insert(s[0], SortPaths(s[1..]))
  }

  /** The head of a sorted sequence is below every element of it. */
  lemma SortedHeadLeast(x: seq<Path>, v: Path)
    requires Sorted(x) && v in multiset(x)
    ensures PathLe(x[0], v)
  {
    var k :| 0 <= k < |x| && x[k] == v;
    if k == 0 { PathLeReflexive(v); }
  }

  lemma MultisetTails(x: seq<Path>, y: seq<Path>)
    requires x != [] && y != [] && x[0] == y[0] && multiset(x) == multiset(y)
    ensures multiset(x[1..]) == multiset(y[1..])
  {
    assert x == [x[0]] + x[1..] && y == [y[0]] + y[1..];
    assert multiset(x) == multiset{x[0]} + multiset(x[1..]);
    assert multiset(y) == multiset{y[0]} + multiset(y[1..]);
    forall v ensures multiset(x[1..])[v] == multiset(y[1..])[v] {
      assert multiset(x)[v] == multiset{x[0]}[v] + multiset(x[1..])[v];
      assert multiset(y)[v] == multiset{y[0]}[v] + multiset(y[1..])[v];
    }
  }

  /** Two sorted arrangements of the same paths are the same sequence. */
  lemma {:induction false} SortedUnique(x: seq<Path>, y: seq<Path>)
    requires Sorted(x) && Sorted(y) && multiset(x) == multiset(y)
    ensures x == y
  {
    if |x| == 0 {
      assert |multiset(y)| == 0;
    } else {
      assert x[0] in multiset(y) && y != [] && y[0] in multiset(x);
      SortedHeadLeast(x, y[0]);
      SortedHeadLeast(y, x[0]);
      PathLeAntisymmetric(x[0], y[0]);
      MultisetTails(x, y);
      SortedUnique(x[1..], y[1..]);
      assert x == [x[0]] + x[1..] && y == [y[0]] + y[1..];
    }
  }

  /** Sorting forgets the order the paths came in. */
  lemma SortPathsPermutation(s: seq<Path>, t: seq<Path>)
    requires multiset(s) == multiset(t)
    ensures SortPaths(s) == SortPaths(t)
  {
    SortedUnique(SortPaths(s), SortPaths(t));
  }

  /** The first `n` paths of `s` are in order. */
  ghost predicate OrderedPrefix(s: seq<Path>, n: nat)
    requires n <= |s|
  {
    forall p, q :: 0 <= p < q < n ==> PathLe(s[p], s[q])
  }

  /** `all_files.sort()`: insertion sort of the array in place. */
  method SortInPlace(a: array<Path>)
    modifies a
    ensures a[..] == SortPaths(old(a[..]))
  {
    for i := 0 to a.Length
      invariant OrderedPrefix(a[..], i)
      invariant multiset(a[..]) == old(multiset(a[..]))
    {
      InsertLast(a, i);
    }
    assert a[..] == a[..a.Length];
    SortedUnique(a[..], SortPaths(old(a[..])));
  }

  /** The state of the insertion step: `s[..j]` and `s[j..i+1]` are each
      ordered, and everything before `j` is below everything after it. */
  ghost predicate Sinking(s: seq<Path>, j: nat, i: nat)
    requires j <= i < |s|
  {
    && OrderedPrefix(s, j)
    && (forall p, q :: j <= p < q <= i ==> PathLe(s[p], s[q]))
    && (forall p, q :: 0 <= p < j < q <= i ==> PathLe(s[p], s[q]))
  }

  /** Swapping an out-of-order `s[j - 1]` and `s[j]` moves the gap down
      and keeps the multiset. */
  lemma SinkStep(s: seq<Path>, j: nat, i: nat)
    requires 0 < j <= i < |s| && Sinking(s, j, i) && !PathLe(s[j - 1], s[j])
    ensures Sinking(s[j - 1 := s[j]][j := s[j - 1]], j - 1, i)
    ensures multiset(s[j - 1 := s[j]][j := s[j - 1]]) == multiset(s)
    ensures s[j - 1 := s[j]][j := s[j - 1]][i + 1..] == s[i + 1..]
  {
    PathLeTotal(s[j - 1], s[j]);
  }

  /** Once `s[j - 1] <= s[j]` (or `j` is 0) the prefix up to `i` is ordered. */
  lemma SinkDone(s: seq<Path>, j: nat, i: nat)
    requires j <= i < |s| && Sinking(s, j, i) && (j == 0 || PathLe(s[j - 1], s[j]))
    ensures OrderedPrefix(s, i + 1)
  {
    forall p, q | 0 <= p < q <= i ensures PathLe(s[p], s[q]) {
      if p < j - 1 && q == j { PathLeTransitive(s[p], s[j - 1], s[j]); }
    }
  }

  /** Moves `a[i]` down into the sorted prefix `a[..i]`. */
  method InsertLast(a: array<Path>, i: nat)
    requires i < a.Length && OrderedPrefix(a[..], i)
    modifies a
    ensures OrderedPrefix(a[..], i + 1)
    ensures multiset(a[..]) == old(multiset(a[..]))
    ensures a[i + 1..] == old(a[i + 1..])
  {
    var j := i;
    while j > 0 && !PathLe(a[j - 1], a[j])
      invariant 0 <= j <= i
      invariant Sinking(a[..], j, i)
      invariant multiset(a[..]) == old(multiset(a[..]))
      invariant a[i + 1..] == old(a[i + 1..])
    {
      ghost var s := a[..];
      SinkStep(s, j, i);
      a[j - 1], a[j] := a[j], a[j - 1];
      assert a[..] == s[j - 1 := s[j]][j := s[j - 1]];
      j := j - 1;
    }
    SinkDone(a[..], j, i);
  }
}
