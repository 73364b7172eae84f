/** Line handling on strings: Rust's `str::lines`, the newline-joined lists
    handed to the command's environment, and `writeln!` output. */
module Text {

  /** The index of the first `sep` in `s`, or `|s|` when there is none. */
  function IndexOf(s: string, sep: char): (r: nat)
    ensures r <= |s| && (r < |s| ==> s[r] == sep)
    ensures forall i :: 0 <= i < r ==> s[i] != sep
  {
    if s == [] then 0
    else if s[0] == sep then 0
    else 1 + IndexOf(s[1..], sep)
  }

  /** Drops one trailing carriage return. */
  function StripCr(x: string): string
  {
    if |x| > 0 && x[|x| - 1] == '\r' then x[..|x| - 1] else x
  }

  /** `str::lines`: the pieces between line feeds; a carriage return right
      before a line feed belongs to the line ending; a final line ending
      adds no empty line, and the empty string has no lines. */
  function Lines(s: string): (r: seq<string>)
    ensures forall k :: 0 <= k < |r| ==> '\n' !in r[k]
    ensures |r| == 0 <==> s == []
    decreases |s|
  {
    if s == [] then []
    else
      var i := IndexOf(s, '\n');
      if i == |s| then [s]
      else [StripCr(s[..i])] + Lines(s[i + 1..])
  }

  /** What `writeln!` produces for each of `xs` in turn. */
  function Unlines(xs: seq<string>): string
  {
    if xs == [] then [] else xs[0] + "\n" + Unlines(xs[1..])
  }

  /** `xs.join(sep)`. */
  function Join(xs: seq<string>, sep: char): string
  {
    if xs == [] then []
    else if |xs| == 1 then xs[0]
    else xs[0] + [sep] + Join(xs[1..], sep)
  }

  /** The pieces of `s` between occurrences of `sep` (at least one). */
  function Split(s: string, sep: char): (r: seq<string>)
    ensures |r| >= 1
    decreases |s|
  {
    var i := IndexOf(s, sep);
    if i == |s| then [s] else [s[..i]] + Split(s[i + 1..], sep)
  }

  lemma IndexOfPrefix(x: string, sep: char, rest: string)
    requires sep !in x
    ensures IndexOf(x + [sep] + rest, sep) == |x|
  {
    var s := x + [sep] + rest;
    assert forall i :: 0 <= i < |x| ==> s[i] == x[i];
    assert s[|x|] == sep;
  }

  lemma IndexOfNone(x: string, sep: char)
    requires sep !in x
    ensures IndexOf(x, sep) == |x|
  {
  }

  /** A piece free of `sep` followed by `sep` splits off first. */
  lemma SplitCons(x: string, sep: char, rest: string)
    requires sep !in x
    ensures Split(x + [sep] + rest, sep) == [x] + Split(rest, sep)
  {
    var s := x + [sep] + rest;
    IndexOfPrefix(x, sep, rest);
    assert s[..|x|] == x && s[|x| + 1..] == rest;
  }

  /** Splitting undoes joining when no element contains the separator. */
  lemma {:induction false} SplitJoin(xs: seq<string>, sep: char)
    requires xs != []
    requires forall k :: 0 <= k < |xs| ==> sep !in xs[k]
    ensures Split(Join(xs, sep), sep) == xs
  {
    if |xs| == 1 {
      IndexOfNone(xs[0], sep);
    } else {
      SplitCons(xs[0], sep, Join(xs[1..], sep));
      SplitJoin(xs[1..], sep);
      assert xs == [xs[0]] + xs[1..];
    }
  }

  /** Text written one line at a time reads back as those lines followed by
      an empty remainder. */
  lemma {:induction false} SplitUnlines(xs: seq<string>)
    requires forall k :: 0 <= k < |xs| ==> '\n' !in xs[k]
    ensures Split(Unlines(xs), '\n') == xs + [""]
  {
    if xs != [] {
      var rest := Unlines(xs[1..]);
      assert Unlines(xs) == xs[0] + "\n" + rest;
      SplitCons(xs[0], '\n', rest);
      SplitUnlines(xs[1..]);
      ConsSnoc(xs, "");
    }
  }

  lemma ConsSnoc<T>(xs: seq<T>, y: T)
    requires xs != []
    ensures xs + [y] == [xs[0]] + (xs[1..] + [y])
  {
    assert xs == [xs[0]] + xs[1..];
  }

  /** A line free of line feeds followed by one comes out first. */
  lemma LinesCons(x: string, rest: string)
    requires '\n' !in x
    ensures Lines(x + "\n" + rest) == [StripCr(x)] + Lines(rest)
  {
    var s := x + "\n" + rest;
    IndexOfPrefix(x, '\n', rest);
    assert s[..|x|] == x && s[|x| + 1..] == rest;
  }

  /** `s` with a line feed added unless it is empty or already ends in one. */
  function Terminated(s: string): string
  {
    if s != [] && s[|s| - 1] != '\n' then s + "\n" else s
  }

  lemma TerminatedCons(head: string, tail: string)
    ensures Terminated(head + "\n" + tail) == head + "\n" + Terminated(tail)
  {
    if tail != [] {
      assert (head + "\n" + tail)[|head| + 1 + |tail| - 1] == tail[|tail| - 1];
    }
  }

  /** Writing the lines of a text back one per line restores the text,
      ending it with a line feed if it had none; carriage returns are where
      this fails, since `lines` drops one before each line feed. */
  lemma {:induction false} UnlinesLines(s: string)
    requires '\r' !in s
    ensures Unlines(Lines(s)) == Terminated(s)
    decreases |s|
  {
    if s != [] {
      var i := IndexOf(s, '\n');
      if i == |s| {
        assert Unlines([s]) == s + "\n" + Unlines([]);
      } else {
        var head, tail := s[..i], s[i + 1..];
        assert s == head + "\n" + tail;
        LinesCons(head, tail);
        assert StripCr(head) == head by { assert '\r' !in head; }
        UnlinesLines(tail);
        var ls := [head] + Lines(tail);
        assert ls[0] == head && ls[1..] == Lines(tail);
        TerminatedCons(head, tail);
      }
    }
  }

  lemma {:induction false} UnlinesAppend(a: seq<string>, b: seq<string>)
    ensures Unlines(a + b) == Unlines(a) + Unlines(b)
  {
    if a == [] {
      assert a + b == b;
    } else {
      assert (a + b)[0] == a[0] && (a + b)[1..] == a[1..] + b;
      UnlinesAppend(a[1..], b);
    }
  }
}
