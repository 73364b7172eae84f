/** A task entry: the fingerprint of its inputs, the staleness decision,
    running its command, the dry run, and reading it from a YAML node. */
module Entry {
  import opened Base
  import opened StrictYaml
  import opened PathOrder
  import opened Text
  import Utf8

  /** A lowercase-hex SHA-256 digest. */
  type Sha = string

  /** The failures that abort an operation (the outer `Result`). */
  datatype Error =
    | Io           // opening or reading a file, spawning or waiting for the shell
    | Unknown      // the command ended without an exit code
    | MissingName
    | MissingCmd

  datatype ReifySuccess = ExecSuccess(sha: Sha) | Noop

  datatype ReifyFail = ExecFail(code: i32) | MissingRequiredFiles | DryFail

  type ReifyResult = Result<ReifySuccess, ReifyFail>

  datatype Entry = Entry(
    name: string,
    cmd: string,
    requiredFiles: seq<string>,
    files: seq<string>,
    sha: Option<Sha>)

  /** The file system at one moment: which declared paths canonicalize, and
      to what, and the bytes that can be read from each canonical path. A
      canonical path with no contents (a directory, an unreadable file) is
      one whose opening or reading fails. */
  datatype FileSystem = FileSystem(canonical: map<string, Path>, contents: map<Path, seq<byte>>)

  function Canonicalize(fs: FileSystem, p: string): Option<Path>
  {
    if p in fs.canonical then Some(fs.canonical[p]) else None
  }

  // ---------------------------------------------------------------------
  // Reading a list from YAML

  /** The strings among `items`, in their order; other nodes are skipped. */
  function Strings(items: seq<Yaml>): (r: seq<string>)
    ensures |r| <= |items|
    ensures forall x :: x in r <==> Str(x) in items
  {
    if items == [] then []
    else
      assert items == [items[0]] + items[1..];
      (if items[0].Str? then [items[0].s] else []) + Strings(items[1..])
  }

  /** `str_vec`: a string is a one-element list, an array gives its
      strings, anything else gives the empty list. */
  function StrVec(y: Yaml): (r: seq<string>)
    ensures y.Str? ==> r == [y.s]
    ensures y.Array? ==> forall x :: x in r <==> Str(x) in y.items
    ensures !y.Str? && !y.Array? ==> r == []
  {
    match y
    case Array(items) => Strings(items)
    case Str(x) => [x]
    case _ => []
  }

  /** Filtering keeps the order: it distributes over concatenation. */
  lemma {:induction false} StringsAppend(a: seq<Yaml>, b: seq<Yaml>)
    ensures Strings(a + b) == Strings(a) + Strings(b)
  {
    if a == [] {
      assert a + b == b;
    } else {
      assert (a + b)[0] == a[0] && (a + b)[1..] == a[1..] + b;
      StringsAppend(a[1..], b);
    }
  }

  /** The YAML array holding exactly the strings `xs`. */
  function StrItems(xs: seq<string>): (r: seq<Yaml>)
    ensures |r| == |xs| && forall i :: 0 <= i < |xs| ==> r[i] == Str(xs[i])
  {
    seq(|xs|, i requires 0 <= i < |xs| => Str(xs[i]))
  }

  /** `str_vec` keeps the strings of an array in order: reading the items
      of two arrays laid end to end reads each array in turn. */
  lemma StrVecArrayOrder(a: seq<Yaml>, b: seq<Yaml>)
    ensures StrVec(Array(a + b)) == StrVec(Array(a)) + StrVec(Array(b))
  {
    StringsAppend(a, b);
  }

  /** An array made only of strings is read as exactly those strings. */
  lemma {:induction false} StringsAllStrings(xs: seq<string>)
    ensures Strings(StrItems(xs)) == xs
  {
    if xs != [] {
      var items := StrItems(xs);
      assert items[0] == Str(xs[0]);
      assert items[1..] == StrItems(xs[1..]);
      assert Strings(items) == [xs[0]] + Strings(items[1..]);
      StringsAllStrings(xs[1..]);
      assert xs == [xs[0]] + xs[1..];
    }
  }

  // ---------------------------------------------------------------------
  // The fingerprint

  /** `filter_map(canonicalize)`: the canonical forms of the paths that
      resolve, in declaration order. */
  function Resolve(fs: FileSystem, ps: seq<string>): (r: seq<Path>)
    ensures |r| <= |ps|
    ensures |r| == |ps| <==> forall i :: 0 <= i < |ps| ==> Canonicalize(fs, ps[i]).Some?
  {
    if ps == [] then []
    else
      var rest := Resolve(fs, ps[1..]);
      assert forall i :: 1 <= i < |ps| ==> ps[i] == ps[1..][i - 1];
      match Canonicalize(fs, ps[0])
      case Some(p) => [p] + rest
      case None => rest
  }

  lemma {:induction false} ResolveAppend(fs: FileSystem, a: seq<string>, b: seq<string>)
    ensures Resolve(fs, a + b) == Resolve(fs, a) + Resolve(fs, b)
  {
    if a == [] {
      assert a + b == b;
    } else {
      assert (a + b)[0] == a[0] && (a + b)[1..] == a[1..] + b;
      ResolveAppend(fs, a[1..], b);
    }
  }

  /** Resolving a rearrangement of the paths rearranges the result. */
  lemma {:induction false} ResolvePermutation(fs: FileSystem, a: seq<string>, b: seq<string>)
    requires multiset(a) == multiset(b)
    ensures multiset(Resolve(fs, a)) == multiset(Resolve(fs, b))
    decreases |a|
  {
    if a == [] {
      assert b == [] by { assert |multiset(b)| == 0; }
    } else {
      assert a[0] in multiset(b);
      var k :| 0 <= k < |b| && b[k] == a[0];
      var b' := b[..k] + b[k + 1..];
      RemoveMatching(a, b, k);
      ResolvePermutation(fs, a[1..], b');
      ResolveAppend(fs, [a[0]], a[1..]);
      assert a == [a[0]] + a[1..];
      ResolveAt(fs, b, k);
    }
  }

  /** Taking one occurrence of the same value out of two equal multisets. */
  lemma RemoveMatching(a: seq<string>, b: seq<string>, k: nat)
    requires multiset(a) == multiset(b) && a != [] && k < |b| && b[k] == a[0]
    ensures multiset(a[1..]) == multiset(b[..k] + b[k + 1..])
  {
    var b' := b[..k] + b[k + 1..];
    assert b == b[..k] + [b[k]] + b[k + 1..];
    assert a == [a[0]] + a[1..];
    assert multiset(a) == multiset{a[0]} + multiset(a[1..]);
    assert multiset(b) == multiset(b[..k]) + multiset{b[k]} + multiset(b[k + 1..]);
    forall v ensures multiset(a[1..])[v] == multiset(b')[v] {
      assert multiset(a)[v] == multiset{a[0]}[v] + multiset(a[1..])[v];
      assert multiset(b)[v] == multiset(b[..k])[v] + multiset{b[k]}[v] + multiset(b[k + 1..])[v];
    }
  }

  /** Resolving `b` resolves `b[k]` and the others. */
  lemma ResolveAt(fs: FileSystem, b: seq<string>, k: nat)
    requires k < |b|
    ensures multiset(Resolve(fs, b)) ==
      multiset(Resolve(fs, [b[k]])) + multiset(Resolve(fs, b[..k] + b[k + 1..]))
  {
    assert b == b[..k] + [b[k]] + b[k + 1..];
    ResolveAppend(fs, b[..k], [b[k]]);
    ResolveAppend(fs, b[..k] + [b[k]], b[k + 1..]);
    ResolveAppend(fs, b[..k], b[k + 1..]);
  }

  /** A path that does not resolve is left out wherever it stands. */
  lemma ResolveSkips(fs: FileSystem, a: seq<string>, p: string, b: seq<string>)
    requires Canonicalize(fs, p).None?
    ensures Resolve(fs, a + [p] + b) == Resolve(fs, a + b)
  {
    ResolveAppend(fs, a + [p], b);
    ResolveAppend(fs, a, [p]);
    ResolveAppend(fs, a, b);
  }

  /** Whether every path can be opened and read. */
  predicate Readable(fs: FileSystem, ps: seq<Path>)
  {
    forall i :: 0 <= i < |ps| ==> ps[i] in fs.contents
  }

  /** The bytes of the files `ps`, one file after the other. */
  function Concat(fs: FileSystem, ps: seq<Path>): seq<byte>
    requires Readable(fs, ps)
  {
    if ps == [] then [] else Concat(fs, ps[..|ps| - 1]) + fs.contents[ps[|ps| - 1]]
  }

  /** The canonical paths of all declared files, sorted. */
  function HashedFiles(fs: FileSystem, e: Entry): seq<Path>
  {
    SortPaths(Resolve(fs, e.files + e.requiredFiles))
  }

  /** The byte stream fed to the digest, or the I/O error that stops it. */
  function HashInput(fs: FileSystem, e: Entry): Result<seq<byte>, Error>
  {
    var ps := HashedFiles(fs, e);
    if Readable(fs, ps) then Ok(Concat(fs, ps) + Utf8.Encode(e.cmd)) else Err(Io)
  }

  /** `calc_sha`, with `hash` standing for SHA-256 followed by hex rendering. */
  function Fingerprint(fs: FileSystem, hash: seq<byte> -> Sha, e: Entry): Result<Sha, Error>
  {
    match HashInput(fs, e)
    case Ok(bytes) => Ok(hash(bytes))
    case Err(err) => Err(err)
  }

  /** The incremental hasher: all it keeps, as far as the model goes, is the
      stream of bytes it has been fed. */
  class Hasher {
    var input: seq<byte>

    constructor ()
      ensures input == []
    {
      input := [];
    }

    method Update(bytes: seq<byte>)
      modifies this
      ensures input == old(input) + bytes
    {
      input := input + bytes;
    }
  }

  /** The size of the read buffer. */
  const BufferSize: nat := 1024

  /** `calc_sha`: resolve and sort the files, feed each one to the hasher,
      then the command text, and finish the digest. */
  method CalcSha(fs: FileSystem, hash: seq<byte> -> Sha, e: Entry) returns (r: Result<Sha, Error>)
    ensures r == Fingerprint(fs, hash, e)
  {
    var hasher := new Hasher();
    var found := ResolveAll(fs, e.files + e.requiredFiles);
    var allFiles := new Path[|found|](k requires 0 <= k < |found| => found[k]);
    assert allFiles[..] == found;
    SortInPlace(allFiles);
    ghost var ps := HashedFiles(fs, e);
    assert allFiles[..] == ps;
    var readable := HashFiles(fs, allFiles, hasher);
    assert allFiles[..] == ps;
    if !readable {
      assert HashInput(fs, e) == Err(Io);
      return Err(Io);
    }
    assert hasher.input == Concat(fs, ps);
    hasher.Update(Utf8.Encode(e.cmd));
    assert HashInput(fs, e) == Ok(Concat(fs, ps) + Utf8.Encode(e.cmd));
    r := Ok(hash(hasher.input));
  }

  /** Collects the canonical forms of the paths that resolve. */
  method ResolveAll(fs: FileSystem, declared: seq<string>) returns (found: seq<Path>)
    ensures found == Resolve(fs, declared)
  {
    found := [];
    for i := 0 to |declared|
      invariant found == Resolve(fs, declared[..i])
    {
      ResolveAppend(fs, declared[..i], [declared[i]]);
      assert declared[..i + 1] == declared[..i] + [declared[i]];
      match Canonicalize(fs, declared[i]) {
        case Some(p) => found := found + [p];
        case None =>
      }
    }
    assert declared[..|declared|] == declared;
  }

  /** Feeds the files to the hasher in order; stops with `false` at the
      first one that cannot be opened or read. */
  method HashFiles(fs: FileSystem, allFiles: array<Path>, hasher: Hasher) returns (readable: bool)
    modifies hasher
    ensures readable == Readable(fs, allFiles[..])
    ensures readable ==> hasher.input == old(hasher.input) + Concat(fs, allFiles[..])
  {
    for i := 0 to allFiles.Length
      invariant Readable(fs, allFiles[..i])
      invariant hasher.input == old(hasher.input) + Concat(fs, allFiles[..i])
    {
      var file := allFiles[i];
      if file !in fs.contents {
        return false;
      }
      Feed(hasher, fs.contents[file]);
      assert allFiles[..i + 1][..i] == allFiles[..i];
    }
    assert allFiles[..allFiles.Length] == allFiles[..];
    return true;
  }

  /** The read loop: one buffer-sized chunk after another until the end. */
  method Feed(hasher: Hasher, data: seq<byte>)
    modifies hasher
    ensures hasher.input == old(hasher.input) + data
  {
    var pos := 0;
    while pos < |data|
      invariant pos <= |data|
      invariant hasher.input == old(hasher.input) + data[..pos]
    {
      var count := if |data| - pos < BufferSize then |data| - pos else BufferSize;
      hasher.Update(data[pos..pos + count]);
      assert data[..pos] + data[pos..pos + count] == data[..pos + count];
      pos := pos + count;
    }
    assert data[..pos] == data;
  }

  /** Concatenation of the files of two groups is that of each in turn. */
  lemma {:induction false} ConcatAppend(fs: FileSystem, a: seq<Path>, b: seq<Path>)
    requires Readable(fs, a) && Readable(fs, b)
    ensures Readable(fs, a + b)
    ensures Concat(fs, a + b) == Concat(fs, a) + Concat(fs, b)
    decreases |b|
  {
    if b == [] {
      assert a + b == a;
    } else {
      var b', last := b[..|b| - 1], b[|b| - 1];
      assert (a + b)[..|a + b| - 1] == a + b';
      ConcatAppend(fs, a, b');
    }
  }

  // ---------------------------------------------------------------------
  // Properties of the fingerprint input

  /** The digest input is the sorted files' bytes, then the command's:
      whatever sorted arrangement of the resolvable paths one picks, the
      files are streamed in that order and the command comes last. */
  lemma HashInputLayout(fs: FileSystem, e: Entry, ps: seq<Path>)
    requires Sorted(ps) && multiset(ps) == multiset(Resolve(fs, e.files + e.requiredFiles))
    ensures Readable(fs, ps) ==> HashInput(fs, e) == Ok(Concat(fs, ps) + Utf8.Encode(e.cmd))
    ensures !Readable(fs, ps) ==> HashInput(fs, e) == Err(Io)
  {
    SortedUnique(ps, HashedFiles(fs, e));
  }

  /** Declaring the same paths in another order, or moving them between
      `files` and `required_files`, leaves the digest input unchanged. */
  lemma HashInputPermutation(fs: FileSystem, e1: Entry, e2: Entry)
    requires e1.cmd == e2.cmd
    requires multiset(e1.files + e1.requiredFiles) == multiset(e2.files + e2.requiredFiles)
    ensures HashInput(fs, e1) == HashInput(fs, e2)
  {
    ResolvePermutation(fs, e1.files + e1.requiredFiles, e2.files + e2.requiredFiles);
    SortPathsPermutation(Resolve(fs, e1.files + e1.requiredFiles), Resolve(fs, e2.files + e2.requiredFiles));
  }

  /** A watched path that does not resolve contributes nothing. */
  lemma HashInputSkipsMissing(fs: FileSystem, e: Entry, i: nat, p: string)
    requires i <= |e.files| && Canonicalize(fs, p).None?
    ensures HashInput(fs, e.(files := e.files[..i] + [p] + e.files[i..])) == HashInput(fs, e)
  {
    var a, b := e.files[..i], e.files[i..] + e.requiredFiles;
    assert e.files[..i] + [p] + e.files[i..] + e.requiredFiles == a + [p] + b;
    assert e.files + e.requiredFiles == a + b;
    ResolveSkips(fs, a, p, b);
  }

  /** With no resolvable file, the digest input is the command text alone. */
  lemma HashInputCmdOnly(fs: FileSystem, e: Entry)
    requires forall i :: 0 <= i < |e.files| ==> Canonicalize(fs, e.files[i]).None?
    requires forall i :: 0 <= i < |e.requiredFiles| ==> Canonicalize(fs, e.requiredFiles[i]).None?
    ensures HashInput(fs, e) == Ok(Utf8.Encode(e.cmd))
  {
    var declared := e.files + e.requiredFiles;
    assert forall i :: 0 <= i < |declared| ==> declared[i] in e.files || declared[i] in e.requiredFiles;
    ResolveNone(fs, declared);
    assert HashedFiles(fs, e) == [];
    assert Concat(fs, []) + Utf8.Encode(e.cmd) == Utf8.Encode(e.cmd);
  }

  lemma {:induction false} ResolveNone(fs: FileSystem, ps: seq<string>)
    requires forall i :: 0 <= i < |ps| ==> Canonicalize(fs, ps[i]).None?
    ensures Resolve(fs, ps) == []
  {
    if ps != [] { ResolveNone(fs, ps[1..]); }
  }

  /** Changing only the command changes the digest input. */
  lemma HashInputCmdSensitive(fs: FileSystem, e: Entry, cmd: string)
    requires cmd != e.cmd && HashInput(fs, e).Ok?
    ensures HashInput(fs, e.(cmd := cmd)).Ok?
    ensures HashInput(fs, e.(cmd := cmd)).value != HashInput(fs, e).value
  {
    var ps := HashedFiles(fs, e);
    var prefix := Concat(fs, ps);
    var a, b := prefix + Utf8.Encode(e.cmd), prefix + Utf8.Encode(cmd);
    assert HashedFiles(fs, e.(cmd := cmd)) == ps;
    if a == b {
      assert a[|prefix|..] == Utf8.Encode(e.cmd) && b[|prefix|..] == Utf8.Encode(cmd);
      Utf8.EncodeInjective(e.cmd, cmd);
    }
  }

  /** Two file systems that agree on the lengths of the files `ps` and give
      the same concatenation agree on every one of those files. */
  lemma {:induction false} ConcatSameShape(fs1: FileSystem, fs2: FileSystem, ps: seq<Path>)
    requires Readable(fs1, ps) && Readable(fs2, ps)
    requires forall i :: 0 <= i < |ps| ==> |fs1.contents[ps[i]]| == |fs2.contents[ps[i]]|
    requires Concat(fs1, ps) == Concat(fs2, ps)
    ensures forall i :: 0 <= i < |ps| ==> fs1.contents[ps[i]] == fs2.contents[ps[i]]
    decreases |ps|
  {
    if ps != [] {
      var init, last := ps[..|ps| - 1], ps[|ps| - 1];
      ConcatLength(fs1, fs2, init);
      var c1, c2 := Concat(fs1, init), Concat(fs2, init);
      assert Concat(fs1, ps) == c1 + fs1.contents[last];
      assert Concat(fs2, ps) == c2 + fs2.contents[last];
      assert c1 == (c1 + fs1.contents[last])[..|c1|];
      assert c2 == (c2 + fs2.contents[last])[..|c2|];
      ConcatSameShape(fs1, fs2, init);
      assert fs1.contents[last] == (c1 + fs1.contents[last])[|c1|..];
      assert fs2.contents[last] == (c2 + fs2.contents[last])[|c2|..];
      forall i | 0 <= i < |ps| ensures fs1.contents[ps[i]] == fs2.contents[ps[i]] {
        if i < |ps| - 1 { assert ps[i] == init[i]; }
      }
    }
  }

  lemma {:induction false} ConcatLength(fs1: FileSystem, fs2: FileSystem, ps: seq<Path>)
    requires Readable(fs1, ps) && Readable(fs2, ps)
    requires forall i :: 0 <= i < |ps| ==> |fs1.contents[ps[i]]| == |fs2.contents[ps[i]]|
    ensures |Concat(fs1, ps)| == |Concat(fs2, ps)|
    decreases |ps|
  {
    if ps != [] {
      var init := ps[..|ps| - 1];
      assert forall i :: 0 <= i < |init| ==> init[i] == ps[i];
      ConcatLength(fs1, fs2, init);
    }
  }

  /** Rewriting a watched file with different bytes changes the digest
      input: a new length changes its length, and new bytes of the same
      length change the bytes at that file's place. */
  lemma HashInputFileSensitive(fs: FileSystem, e: Entry, q: Path, data: seq<byte>)
    requires q in HashedFiles(fs, e) && q in fs.contents && data != fs.contents[q]
    requires HashInput(fs, e).Ok?
    ensures HashInput(fs.(contents := fs.contents[q := data]), e).Ok?
    ensures HashInput(fs.(contents := fs.contents[q := data]), e).value != HashInput(fs, e).value
  {
    var fs2 := fs.(contents := fs.contents[q := data]);
    var ps := HashedFiles(fs, e);
    assert Resolve(fs2, e.files + e.requiredFiles) == Resolve(fs, e.files + e.requiredFiles) by {
      ResolveSameCanonical(fs, fs2, e.files + e.requiredFiles);
    }
    assert HashedFiles(fs2, e) == ps;
    assert Readable(fs2, ps);
    var c1, c2 := Concat(fs, ps), Concat(fs2, ps);
    var tail := Utf8.Encode(e.cmd);
    if |data| == |fs.contents[q]| {
      forall i | 0 <= i < |ps| ensures |fs.contents[ps[i]]| == |fs2.contents[ps[i]]| { }
      var k :| 0 <= k < |ps| && ps[k] == q;
      if c1 == c2 {
        ConcatSameShape(fs, fs2, ps);
        assert false;
      } else {
        ConcatLength(fs, fs2, ps);
        assert (c1 + tail)[..|c1|] == c1 && (c2 + tail)[..|c2|] == c2;
      }
    } else if |data| > |fs.contents[q]| {
      ConcatGrows(fs, q, data, ps);
      assert |c1 + tail| < |c2 + tail|;
    } else {
      assert fs2.(contents := fs2.contents[q := fs.contents[q]]) == fs;
      ConcatGrows(fs2, q, fs.contents[q], ps);
      assert |c1 + tail| > |c2 + tail|;
    }
  }

  /** Making the file `q` longer cannot shorten the concatenation, and
      lengthens it when `q` is among the files. */
  lemma {:induction false} ConcatGrows(fs: FileSystem, q: Path, data: seq<byte>, ps: seq<Path>)
    requires Readable(fs, ps) && q in fs.contents && |data| >= |fs.contents[q]|
    ensures Readable(fs.(contents := fs.contents[q := data]), ps)
    ensures |Concat(fs.(contents := fs.contents[q := data]), ps)| >= |Concat(fs, ps)|
    ensures q in ps && |data| > |fs.contents[q]| ==>
      |Concat(fs.(contents := fs.contents[q := data]), ps)| > |Concat(fs, ps)|
    decreases |ps|
  {
    if ps != [] {
      var init, last := ps[..|ps| - 1], ps[|ps| - 1];
      assert ps == init + [last];
      assert forall i :: 0 <= i < |init| ==> init[i] == ps[i];
      ConcatGrows(fs, q, data, init);
      assert q in ps ==> q in init || q == last;
    }
  }

  /** Resolution depends on the canonical-path map alone. */
  lemma {:induction false} ResolveSameCanonical(fs1: FileSystem, fs2: FileSystem, ps: seq<string>)
    requires fs1.canonical == fs2.canonical
    ensures Resolve(fs1, ps) == Resolve(fs2, ps)
  {
    if ps != [] { ResolveSameCanonical(fs1, fs2, ps[1..]); }
  }

  /** The digest input has no separators: the last file's final byte and the
      command's first byte can trade places without changing it. */
  lemma HashInputUnframed()
    ensures var p: Path := ["out.txt"];
            var fs1 := FileSystem(map["out.txt" := p], map[p := [0x68]]);
            var fs2 := FileSystem(map["out.txt" := p], map[p := []]);
            var e := Entry("", "i", [], ["out.txt"], None);
            HashInput(fs1, e) == HashInput(fs2, e.(cmd := "hi"))
  {
    var p: Path := ["out.txt"];
    var fs1 := FileSystem(map["out.txt" := p], map[p := [0x68]]);
    var fs2 := FileSystem(map["out.txt" := p], map[p := []]);
    var e := Entry("", "i", [], ["out.txt"], None);
    var e2 := e.(cmd := "hi");
    assert e.files + e.requiredFiles == ["out.txt"] && e2.files + e2.requiredFiles == ["out.txt"];
    assert ["out.txt"][1..] == [];
    assert Resolve(fs1, ["out.txt"]) == [p] && Resolve(fs2, ["out.txt"]) == [p];
    assert SortPaths([p]) == [p] by { assert [p][1..] == []; }
    assert HashedFiles(fs1, e) == [p] && HashedFiles(fs2, e2) == [p];
    assert Concat(fs1, [p]) == [0x68] by { assert [p][..0] == []; }
    assert Concat(fs2, [p]) == [] by { assert [p][..0] == []; }
    assert Utf8.Encode("i") == [0x69] by { assert "i"[1..] == []; }
    assert Utf8.Encode("hi") == [0x68, 0x69] by { assert "hi"[1..] == "i"; assert "i"[1..] == []; }
    assert HashInput(fs1, e) == Ok([0x68, 0x69]);
    assert Readable(fs2, [p]) && e2.cmd == "hi";
    assert Concat(fs2, [p]) + Utf8.Encode(e2.cmd) == [0x68, 0x69];
  }

  // ---------------------------------------------------------------------
  // The staleness decision

  /** The three states of an entry with respect to its stored fingerprint. */
  datatype Staleness = NoHistory | Unchanged | Changed

  /** Compares the stored fingerprint, if any, with a freshly computed one. */
  function Decide(fs: FileSystem, hash: seq<byte> -> Sha, e: Entry): (r: Result<Staleness, Error>)
    ensures r == Ok(NoHistory) <==> e.sha.None?
    ensures r == Ok(Unchanged) <==> e.sha.Some? && Fingerprint(fs, hash, e) == Ok(e.sha.value)
    ensures r == Ok(Changed) <==>
      e.sha.Some? && Fingerprint(fs, hash, e).Ok? && Fingerprint(fs, hash, e).value != e.sha.value
    ensures r.Err? <==> e.sha.Some? && Fingerprint(fs, hash, e).Err?
  {
    match e.sha
    case None => Ok(NoHistory)
    case Some(stored) =>
      match Fingerprint(fs, hash, e)
      case Err(err) => Err(err)
      case Ok(current) => if current != stored then Ok(Changed) else Ok(Unchanged)
  }

  /** Whether the command would run: there is no stored fingerprint, or it
      is out of date. */
  predicate Stale(d: Result<Staleness, Error>)
  {
    d == Ok(NoHistory) || d == Ok(Changed)
  }

  /** `check_then`: `Noop` for an unchanged entry, otherwise whatever the
      continuation `exec` returns. */
  function CheckThen(fs: FileSystem, hash: seq<byte> -> Sha, e: Entry,
                     exec: () -> Result<ReifyResult, Error>): (r: Result<ReifyResult, Error>)
    ensures Decide(fs, hash, e) == Ok(Unchanged) ==> r == Ok(Ok(Noop))
    ensures Stale(Decide(fs, hash, e)) ==> r == exec()
    ensures Decide(fs, hash, e).Err? ==> r == Err(Decide(fs, hash, e).error)
  {
    if e.sha.Some? then
      match Fingerprint(fs, hash, e)
      case Err(err) => Err(err)
      case Ok(newSha) => if newSha != e.sha.value then exec() else Ok(Ok(Noop))
    else
      exec()
  }

  // ---------------------------------------------------------------------
  // Running the command

  /** A process to start: program, arguments and added environment. */
  datatype Invocation = Invocation(program: string, args: seq<string>, env: seq<(string, string)>)

  /** What `exec` starts: bash running the command after `set -xe`, with
      the declared (not canonicalized) path lists in the environment. */
  function Command(e: Entry): Invocation
  {
    Invocation("/bin/bash", ["-c", Join(["set -xe", e.cmd], '\n')],
      [("files", Join(e.files, '\n')), ("required_files", Join(e.requiredFiles, '\n'))])
  }

  /** The script is `set -xe` on a line of its own before the command, and
      each list variable reads back, line by line, as the declared paths. */
  lemma CommandContract(e: Entry)
    ensures Command(e).args[1] == "set -xe\n" + e.cmd
    ensures e.files != [] && (forall k :: 0 <= k < |e.files| ==> '\n' !in e.files[k]) ==>
      Split(Command(e).env[0].1, '\n') == e.files
    ensures e.requiredFiles != [] && (forall k :: 0 <= k < |e.requiredFiles| ==> '\n' !in e.requiredFiles[k]) ==>
      Split(Command(e).env[1].1, '\n') == e.requiredFiles
    ensures e.files == [] ==> Command(e).env[0].1 == ""
    ensures e.requiredFiles == [] ==> Command(e).env[1].1 == ""
  {
    assert Join([e.cmd], '\n') == e.cmd;
    if e.files != [] && (forall k :: 0 <= k < |e.files| ==> '\n' !in e.files[k]) {
      SplitJoin(e.files, '\n');
    }
    if e.requiredFiles != [] && (forall k :: 0 <= k < |e.requiredFiles| ==> '\n' !in e.requiredFiles[k]) {
      SplitJoin(e.requiredFiles, '\n');
    }
  }

  /** How the operating system reports a run: spawning or waiting failed
      with an I/O error, or the process ended, with an exit code unless a
      signal ended it. */
  datatype WaitStatus = IoFailure | Ended(code: Option<i32>)

  /** One run of the shell: its status and the file system the command
      leaves behind. */
  datatype ProcessRun = ProcessRun(status: WaitStatus, after: FileSystem)

  /** `exec`: the exit code of the run; a failed spawn or wait is `Io`, and
      an absent code is `Unknown`. */
  function Exec(spawn: Invocation -> ProcessRun, e: Entry): (r: Result<i32, Error>)
    ensures r.Ok? <==> spawn(Command(e)).status.Ended? && spawn(Command(e)).status.code.Some?
    ensures r.Ok? ==> r.value == spawn(Command(e)).status.code.value
    ensures spawn(Command(e)).status == IoFailure ==> r == Err(Io)
    ensures spawn(Command(e)).status == Ended(None) ==> r == Err(Unknown)
  {
    match spawn(Command(e)).status
    case IoFailure => Err(Io)
    case Ended(Some(code)) => Ok(code)
    case Ended(None) => Err(Unknown)
  }

  /** The continuation `reify` gives `check_then`: run the command; on exit
      code 0 fingerprint the files as the command left them, on any other
      code report it. */
  function RunThenHash(hash: seq<byte> -> Sha, spawn: Invocation -> ProcessRun, e: Entry): Result<ReifyResult, Error>
  {
    match Exec(spawn, e)
    case Err(err) => Err(err)
    case Ok(code) =>
      if code == 0 then
        match Fingerprint(spawn(Command(e)).after, hash, e)
        case Ok(sha) => Ok(Ok(ExecSuccess(sha)))
        case Err(err) => Err(err)
      else
        Ok(Err(ExecFail(code)))
  }

  /** Whether every required path canonicalizes. */
  predicate RequiredPresent(fs: FileSystem, e: Entry)
  {
    |Resolve(fs, e.requiredFiles)| == |e.requiredFiles|
  }

  /** `reify`: check the required files, then decide, then run. */
  function Reify(fs: FileSystem, hash: seq<byte> -> Sha, spawn: Invocation -> ProcessRun, e: Entry): Result<ReifyResult, Error>
  {
    if |e.requiredFiles| == |Resolve(fs, e.requiredFiles)| then
      CheckThen(fs, hash, e, () => RunThenHash(hash, spawn, e))
    else
      Ok(Err(MissingRequiredFiles))
  }

  /** `dry_run`: the same decision, with `DryFail` in place of running. */
  function DryRun(fs: FileSystem, hash: seq<byte> -> Sha, e: Entry): Result<ReifyResult, Error>
  {
    CheckThen(fs, hash, e, () => Ok(Err(DryFail)))
  }

  /** The continuation can end only in success with a fingerprint, failure
      with the exit code, or an error. */
  lemma RunThenHashOutcome(hash: seq<byte> -> Sha, spawn: Invocation -> ProcessRun, e: Entry)
    ensures var r := RunThenHash(hash, spawn, e);
      r.Ok? ==> (r.value.Ok? && r.value.value.ExecSuccess?) || (r.value.Err? && r.value.error.ExecFail?)
  {
  }

  /** `MissingRequiredFiles` is the result exactly when some required path
      does not canonicalize, whatever the command would do. */
  lemma ReifyMissingRequired(fs: FileSystem, hash: seq<byte> -> Sha, spawn: Invocation -> ProcessRun, e: Entry)
    ensures Reify(fs, hash, spawn, e) == Ok(Err(MissingRequiredFiles)) <==>
      exists i :: 0 <= i < |e.requiredFiles| && Canonicalize(fs, e.requiredFiles[i]).None?
  {
    if RequiredPresent(fs, e) {
      RunThenHashOutcome(hash, spawn, e);
    }
  }

  /** When the required files are missing, the entry is unchanged, or the
      fingerprint cannot be computed, the command is not run: the result is
      the same whatever running it would have given. */
  lemma ReifyWithoutRunning(fs: FileSystem, hash: seq<byte> -> Sha, spawn1: Invocation -> ProcessRun,
                            spawn2: Invocation -> ProcessRun, e: Entry)
    requires !Stale(Decide(fs, hash, e)) || !RequiredPresent(fs, e)
    ensures Reify(fs, hash, spawn1, e) == Reify(fs, hash, spawn2, e)
    ensures RequiredPresent(fs, e) && Decide(fs, hash, e) == Ok(Unchanged) ==>
      Reify(fs, hash, spawn1, e) == Ok(Ok(Noop))
  {
  }

  /** A stale entry whose required files are present runs its command
      once, and the outcome follows the exit status. */
  lemma ReifyRuns(fs: FileSystem, hash: seq<byte> -> Sha, spawn: Invocation -> ProcessRun, e: Entry)
    requires RequiredPresent(fs, e) && Stale(Decide(fs, hash, e))
    ensures var run := spawn(Command(e)); var r := Reify(fs, hash, spawn, e);
      && (run.status == IoFailure ==> r == Err(Io))
      && (run.status == Ended(None) ==> r == Err(Unknown))
      && (forall c: i32 :: run.status == Ended(Some(c)) && c != 0 ==> r == Ok(Err(ExecFail(c))))
      && (run.status == Ended(Some(0)) ==>
            r == match Fingerprint(run.after, hash, e)
                 case Ok(sha) => Ok(Ok(ExecSuccess(sha)))
                 case Err(err) => Err(err))
  {
  }

  /** Success carries the fingerprint of the files as the command left
      them, and happens only for a stale entry whose command exited 0. */
  lemma ReifyExecSuccess(fs: FileSystem, hash: seq<byte> -> Sha, spawn: Invocation -> ProcessRun, e: Entry, sha: Sha)
    requires Reify(fs, hash, spawn, e) == Ok(Ok(ExecSuccess(sha)))
    ensures RequiredPresent(fs, e) && Stale(Decide(fs, hash, e))
    ensures spawn(Command(e)).status == Ended(Some(0))
    ensures Fingerprint(spawn(Command(e)).after, hash, e) == Ok(sha)
  {
    if !RequiredPresent(fs, e) {
    } else if !Stale(Decide(fs, hash, e)) {
    } else {
      RunThenHashOutcome(hash, spawn, e);
    }
  }

  /** `ExecFail` carries the command's own nonzero exit code. */
  lemma ReifyExecFail(fs: FileSystem, hash: seq<byte> -> Sha, spawn: Invocation -> ProcessRun, e: Entry, code: i32)
    requires Reify(fs, hash, spawn, e) == Ok(Err(ExecFail(code)))
    ensures RequiredPresent(fs, e) && Stale(Decide(fs, hash, e))
    ensures code != 0 && spawn(Command(e)).status == Ended(Some(code))
  {
    if RequiredPresent(fs, e) && Stale(Decide(fs, hash, e)) {
      RunThenHashOutcome(hash, spawn, e);
    }
  }

  /** A real run never reports `DryFail`. */
  lemma ReifyNeverDryFail(fs: FileSystem, hash: seq<byte> -> Sha, spawn: Invocation -> ProcessRun, e: Entry)
    ensures Reify(fs, hash, spawn, e) != Ok(Err(DryFail))
  {
    RunThenHashOutcome(hash, spawn, e);
  }

  /** A dry run ends in `Noop` exactly for an unchanged entry, in `DryFail`
      exactly for a stale one, and in an error only when the fingerprint
      cannot be computed; it never runs, succeeds or fails a command. */
  lemma DryRunOutcome(fs: FileSystem, hash: seq<byte> -> Sha, e: Entry)
    ensures DryRun(fs, hash, e) == Ok(Ok(Noop)) <==> Decide(fs, hash, e) == Ok(Unchanged)
    ensures DryRun(fs, hash, e) == Ok(Err(DryFail)) <==> Stale(Decide(fs, hash, e))
    ensures DryRun(fs, hash, e).Err? <==> Decide(fs, hash, e).Err?
    ensures DryRun(fs, hash, e).Ok? ==>
      DryRun(fs, hash, e) == Ok(Ok(Noop)) || DryRun(fs, hash, e) == Ok(Err(DryFail))
  {
  }

  /** With the required files present, a dry run reports `Noop` exactly
      when a real run would, whatever the command does. */
  lemma DryRunAgreesWithReify(fs: FileSystem, hash: seq<byte> -> Sha, spawn: Invocation -> ProcessRun, e: Entry)
    requires RequiredPresent(fs, e)
    ensures DryRun(fs, hash, e) == Ok(Ok(Noop)) <==> Reify(fs, hash, spawn, e) == Ok(Ok(Noop))
  {
    RunThenHashOutcome(hash, spawn, e);
  }

  /** A dry run does not check the required files: an unchanged entry with
      one missing is `Noop` dry and `MissingRequiredFiles` for real. */
  lemma DryRunSkipsRequiredCheck(fs: FileSystem, hash: seq<byte> -> Sha, spawn: Invocation -> ProcessRun, e: Entry)
    requires !RequiredPresent(fs, e) && Decide(fs, hash, e) == Ok(Unchanged)
    ensures DryRun(fs, hash, e) == Ok(Ok(Noop))
    ensures Reify(fs, hash, spawn, e) == Ok(Err(MissingRequiredFiles))
  {
  }

  // ---------------------------------------------------------------------
  // Reading an entry from YAML

  /** `from_yaml`: `name` and `cmd` must be strings, checked in that order;
      `sha` is optional; the two lists never fail. */
  function FromYaml(y: Yaml): (r: Result<Entry, Error>)
    ensures !Index(y, "name").Str? ==> r == Err(MissingName)
    ensures Index(y, "name").Str? && !Index(y, "cmd").Str? ==> r == Err(MissingCmd)
    ensures r.Ok? <==> Index(y, "name").Str? && Index(y, "cmd").Str?
    ensures r.Ok? ==> r.value.name == Index(y, "name").s && r.value.cmd == Index(y, "cmd").s
    ensures r.Ok? ==> (Index(y, "sha").Str? ==> r.value.sha == Some(Index(y, "sha").s))
    ensures r.Ok? ==> (!Index(y, "sha").Str? ==> r.value.sha == None)
    ensures r.Ok? ==> r.value.files == StrVec(Index(y, "files"))
    ensures r.Ok? ==> r.value.requiredFiles == StrVec(Index(y, "required_files"))
  {
    match AsStr(Index(y, "name"))
    case None => Err(MissingName)
    case Some(name) =>
      match AsStr(Index(y, "cmd"))
      case None => Err(MissingCmd)
      case Some(cmd) =>
        Ok(Entry(name, cmd, StrVec(Index(y, "required_files")), StrVec(Index(y, "files")), AsStr(Index(y, "sha"))))
  }

  /** Whatever `files`, `required_files` and `sha` hold, or whether they are
      there at all, decides nothing about success or about name and command. */
  lemma FromYamlOptionalFields(m: map<string, Yaml>, key: string, v: Option<Yaml>)
    requires key in {"files", "required_files", "sha"}
    ensures var m' := match v case Some(x) => m[key := x] case None => m - {key};
      && FromYaml(Hash(m')).Ok? == FromYaml(Hash(m)).Ok?
      && (FromYaml(Hash(m)).Ok? ==>
            FromYaml(Hash(m')).value.name == FromYaml(Hash(m)).value.name &&
            FromYaml(Hash(m')).value.cmd == FromYaml(Hash(m)).value.cmd)
  {
    var m' := match v case Some(x) => m[key := x] case None => m - {key};
    assert Index(Hash(m'), "name") == Index(Hash(m), "name");
    assert Index(Hash(m'), "cmd") == Index(Hash(m), "cmd");
  }
}
