/** Writing an entry back out as a YAML list item (`Entry::dump`). */
module EntryDump {
  import opened Base
  import opened Text
  import opened Entry

  /** A text sink that `dump` writes to, one `writeln!` at a time. */
  class Writer {
    var text: string

    constructor ()
      ensures text == []
    {
      text := [];
    }

    /** `writeln!`: the line, then a line feed. */
    method WriteLine(line: string)
      modifies this
      ensures text == old(text) + line + "\n"
    {
      text := text + line + "\n";
    }
  }

  const NameKey := "  name: "
  const CmdKey := "  cmd: |"
  const CmdIndent := "    "
  const RequiredKey := "  required_files:"
  const FilesKey := "  files:"
  const ItemPrefix := "  - "
  const ShaKey := "  sha: "

  /** `new_sha.or_else(|| self.sha.clone())`. */
  function ChosenSha(e: Entry, newSha: Option<Sha>): (r: Option<Sha>)
    ensures newSha.Some? ==> r == newSha
    ensures newSha.None? ==> r == e.sha
  {
    if newSha.Some? then newSha else e.sha
  }

  /** Each of `xs` behind `prefix`. */
  function Indented(xs: seq<string>, prefix: string): (r: seq<string>)
    ensures |r| == |xs| && forall i :: 0 <= i < |xs| ==> r[i] == prefix + xs[i]
  {
    seq(|xs|, i requires 0 <= i < |xs| => prefix + xs[i])
  }

  function NameSection(name: string): seq<string>
  {
    if name != "" then [NameKey + name] else []
  }

  function ListSection(key: string, xs: seq<string>): seq<string>
  {
    if xs != [] then [key] + Indented(xs, ItemPrefix) else []
  }

  function ShaSection(sha: Option<Sha>): seq<string>
  {
    match sha case Some(s) => [ShaKey + s] case None => []
  }

  function CmdSection(cmd: string): seq<string>
  {
    [CmdKey] + Indented(Lines(cmd), CmdIndent)
  }

  /** The path lists and the fingerprint, after the command block. */
  function TailSections(required: seq<string>, files: seq<string>, sha: Option<Sha>): seq<string>
  {
    ListSection(RequiredKey, required) + (ListSection(FilesKey, files) + ShaSection(sha))
  }

  /** The lines `dump` writes, in order: the item marker, the name unless it
      is empty, the command as a literal block, each non-empty path list,
      and the fingerprint if one is known. */
  function DumpLines(e: Entry, newSha: Option<Sha>): seq<string>
  {
    ["-"] + (NameSection(e.name) + (CmdSection(e.cmd) + TailSections(e.requiredFiles, e.files, ChosenSha(e, newSha))))
  }

  lemma Regroup(a: seq<string>, b: seq<string>, c: seq<string>, d: seq<string>, e: seq<string>, f: seq<string>)
    ensures a + (b + (c + (d + (e + f)))) == a + b + c + d + e + f
  {
  }

  /** `dump`: writes the entry's lines to `w`. */
  method Dump(e: Entry, w: Writer, newSha: Option<Sha>)
    modifies w
    ensures w.text == old(w.text) + Unlines(DumpLines(e, newSha))
  {
    ghost var start := w.text;
    ghost var written: seq<string> := [];
    written := WriteTracked(w, "-", start, written);
    if e.name != "" {
      written := WriteTracked(w, NameKey + e.name, start, written);
    }
    ghost var head := written;
    assert head == ["-"] + NameSection(e.name);
    written := WriteTracked(w, CmdKey, start, written);
    written := WriteAll(w, Lines(e.cmd), CmdIndent, start, written);
    assert written == head + CmdSection(e.cmd);
    ghost var upToCmd := written;
    written := WriteList(w, RequiredKey, e.requiredFiles, start, written);
    written := WriteList(w, FilesKey, e.files, start, written);
    assert written == upToCmd + ListSection(RequiredKey, e.requiredFiles) + ListSection(FilesKey, e.files);
    Regroup(["-"], NameSection(e.name), CmdSection(e.cmd), ListSection(RequiredKey, e.requiredFiles),
            ListSection(FilesKey, e.files), ShaSection(ChosenSha(e, newSha)));
    match ChosenSha(e, newSha) {
      case Some(sha) =>
        written := WriteTracked(w, ShaKey + sha, start, written);
      case None =>
        assert written + [] == written;
    }
  }

  /** A path list: its key and items, or nothing when it is empty. */
  method WriteList(w: Writer, key: string, xs: seq<string>, ghost start: string, ghost written: seq<string>)
    returns (ghost written': seq<string>)
    requires w.text == start + Unlines(written)
    modifies w
    ensures written' == written + ListSection(key, xs)
    ensures w.text == start + Unlines(written')
  {
    written' := written;
    if xs != [] {
      ghost var keyed := WriteTracked(w, key, start, written);
      written' := WriteAll(w, xs, ItemPrefix, start, keyed);
      assert written' == written + ([key] + Indented(xs, ItemPrefix));
    } else {
      assert ListSection(key, xs) == [];
      assert written' == written + [];
    }
  }

  /** One `writeln!`, keeping track of the lines written since `start`. */
  method WriteTracked(w: Writer, line: string, ghost start: string, ghost written: seq<string>)
    returns (ghost written': seq<string>)
    requires w.text == start + Unlines(written)
    modifies w
    ensures written' == written + [line]
    ensures w.text == start + Unlines(written')
  {
    w.WriteLine(line);
    UnlinesAppend(written, [line]);
    written' := written + [line];
  }

  /** The `for` loop writing each of `xs` behind `prefix`. */
  method WriteAll(w: Writer, xs: seq<string>, prefix: string, ghost start: string, ghost written: seq<string>)
    returns (ghost written': seq<string>)
    requires w.text == start + Unlines(written)
    modifies w
    ensures written' == written + Indented(xs, prefix)
    ensures w.text == start + Unlines(written')
  {
    written' := written;
    for i := 0 to |xs|
      invariant written' == written + Indented(xs[..i], prefix)
      invariant w.text == start + Unlines(written')
    {
      assert Indented(xs[..i + 1], prefix) == Indented(xs[..i], prefix) + [prefix + xs[i]];
      written' := WriteTracked(w, prefix + xs[i], start, written');
    }
    assert xs[..|xs|] == xs;
  }

  // ---------------------------------------------------------------------
  // Reading the layout back

  /** What a dumped item says: name, command lines, the two path lists and
      the fingerprint. */
  datatype Dumped = Dumped(name: string, cmdLines: seq<string>, requiredFiles: seq<string>,
                           files: seq<string>, sha: Option<Sha>)

  predicate HasPrefix(s: string, prefix: string)
  {
    |prefix| <= |s| && s[..|prefix|] == prefix
  }

  /** The leading lines that start with `prefix`, without it, and the rest. */
  function TakeIndented(ls: seq<string>, prefix: string): (seq<string>, seq<string>)
  {
    if ls != [] && HasPrefix(ls[0], prefix) then
      var (xs, rest) := TakeIndented(ls[1..], prefix);
      ([ls[0][|prefix|..]] + xs, rest)
    else
      ([], ls)
  }

  function ParseName(ls: seq<string>): (string, seq<string>)
  {
    if ls != [] && HasPrefix(ls[0], NameKey) then (ls[0][|NameKey|..], ls[1..]) else ("", ls)
  }

  function ParseList(ls: seq<string>, key: string): (seq<string>, seq<string>)
  {
    if ls != [] && ls[0] == key then TakeIndented(ls[1..], ItemPrefix) else ([], ls)
  }

  function ParseSha(ls: seq<string>): (Option<Sha>, seq<string>)
  {
    if ls != [] && HasPrefix(ls[0], ShaKey) then (Some(ls[0][|ShaKey|..]), ls[1..]) else (None, ls)
  }

  /** A reader for exactly the layout `dump` writes, section by section; an
      absent optional section reads as empty or absent. */
  function ParseDump(ls: seq<string>): Option<Dumped>
  {
    if ls == [] || ls[0] != "-" then None
    else
      var (name, r1) := ParseName(ls[1..]);
      if r1 == [] || r1[0] != CmdKey then None
      else
        var (cmdLines, r2) := TakeIndented(r1[1..], CmdIndent);
        match ParseSections(r2)
        case Some((required, files, sha)) => Some(Dumped(name, cmdLines, required, files, sha))
        case None => None
  }

  /** The sections after the command block, which must end the item. */
  function ParseSections(ls: seq<string>): Option<(seq<string>, seq<string>, Option<Sha>)>
  {
    var (required, r1) := ParseList(ls, RequiredKey);
    var (files, r2) := ParseList(r1, FilesKey);
    var (sha, r3) := ParseSha(r2);
    if r3 == [] then Some((required, files, sha)) else None
  }

  lemma PrefixOf(prefix: string, x: string)
    ensures HasPrefix(prefix + x, prefix) && (prefix + x)[|prefix|..] == x
  {
    assert (prefix + x)[..|prefix|] == prefix;
  }

  /** Indented lines read back as themselves up to the first line without
      the indentation. */
  lemma {:induction false} TakeIndentedBack(xs: seq<string>, prefix: string, rest: seq<string>)
    requires rest == [] || !HasPrefix(rest[0], prefix)
    ensures TakeIndented(Indented(xs, prefix) + rest, prefix) == (xs, rest)
  {
    var ls := Indented(xs, prefix) + rest;
    if xs == [] {
      assert ls == rest;
    } else {
      PrefixOf(prefix, xs[0]);
      assert ls[0] == prefix + xs[0];
      assert ls[1..] == Indented(xs[1..], prefix) + rest;
      TakeIndentedBack(xs[1..], prefix, rest);
      assert xs == [xs[0]] + xs[1..];
    }
  }

  lemma ListSectionBack(key: string, xs: seq<string>, rest: seq<string>)
    requires rest == [] || !HasPrefix(rest[0], ItemPrefix)
    requires rest == [] || rest[0] != key
    ensures ParseList(ListSection(key, xs) + rest, key) == (xs, rest)
  {
    if xs != [] {
      var body := Indented(xs, ItemPrefix) + rest;
      HeadTail(key, Indented(xs, ItemPrefix), rest);
      TakeIndentedBack(xs, ItemPrefix, rest);
      assert ParseList([key] + body, key) == TakeIndented(body, ItemPrefix);
    } else {
      assert ListSection(key, xs) + rest == rest;
    }
  }

  lemma HeadTail(x: string, a: seq<string>, b: seq<string>)
    ensures ([x] + a) + b == [x] + (a + b)
    ensures ([x] + (a + b))[0] == x && ([x] + (a + b))[1..] == a + b
  {
  }

  lemma NotPrefixAt(s: string, prefix: string, i: nat)
    requires i < |prefix| && i < |s| && s[i] != prefix[i]
    ensures !HasPrefix(s, prefix)
  {
    if |prefix| <= |s| { assert s[..|prefix|][i] == s[i]; }
  }

  /** No section header or fingerprint line looks like a command line or a
      list item, and none looks like the header of an earlier section. */
  lemma SectionHeads(xs: seq<string>, ys: seq<string>, sha: Option<Sha>)
    ensures var tail := TailSections(xs, ys, sha);
      tail == [] || (!HasPrefix(tail[0], CmdIndent) && !HasPrefix(tail[0], ItemPrefix))
    ensures var tail := ListSection(FilesKey, ys) + ShaSection(sha);
      tail == [] || (!HasPrefix(tail[0], ItemPrefix) && tail[0] != RequiredKey)
    ensures var tail := ShaSection(sha);
      tail == [] || (!HasPrefix(tail[0], ItemPrefix) && tail[0] != FilesKey)
  {
    NotPrefixAt(RequiredKey, CmdIndent, 2);
    NotPrefixAt(RequiredKey, ItemPrefix, 2);
    NotPrefixAt(FilesKey, CmdIndent, 2);
    NotPrefixAt(FilesKey, ItemPrefix, 2);
    assert FilesKey != RequiredKey by { assert FilesKey[2] != RequiredKey[2]; }
    if sha.Some? {
      var line := ShaKey + sha.value;
      assert line[2] == 's';
      NotPrefixAt(line, CmdIndent, 2);
      NotPrefixAt(line, ItemPrefix, 2);
      assert line != RequiredKey && line != FilesKey;
    }
  }

  lemma ParseSectionsBack(xs: seq<string>, ys: seq<string>, sha: Option<Sha>)
    ensures ParseSections(TailSections(xs, ys, sha)) == Some((xs, ys, sha))
  {
    var shaPart := ShaSection(sha);
    var filesPart := ListSection(FilesKey, ys) + shaPart;
    SectionHeads(xs, ys, sha);
    ListSectionBack(RequiredKey, xs, filesPart);
    ListSectionBack(FilesKey, ys, shaPart);
    if sha.Some? {
      PrefixOf(ShaKey, sha.value);
      assert shaPart[1..] == [];
    }
  }

  lemma NameBack(name: string, rest: seq<string>)
    requires rest != [] && rest[0] == CmdKey
    ensures ParseName(NameSection(name) + rest) == (name, rest)
  {
    if name != "" {
      PrefixOf(NameKey, name);
      assert (NameSection(name) + rest)[1..] == rest;
    } else {
      NotPrefixAt(CmdKey, NameKey, 2);
      assert NameSection(name) + rest == rest;
    }
  }

  lemma CmdBack(cmd: string, tail: seq<string>)
    requires tail == [] || !HasPrefix(tail[0], CmdIndent)
    ensures (CmdSection(cmd) + tail)[0] == CmdKey
    ensures TakeIndented((CmdSection(cmd) + tail)[1..], CmdIndent) == (Lines(cmd), tail)
  {
    assert (CmdSection(cmd) + tail)[1..] == Indented(Lines(cmd), CmdIndent) + tail;
    TakeIndentedBack(Lines(cmd), CmdIndent, tail);
  }

  /** The layout is unambiguous: reading the lines of a dump gives back
      the name, the lines of the command, both path lists in their order and
      the fingerprint that was written. */
  lemma ParseDumpLines(e: Entry, newSha: Option<Sha>)
    ensures ParseDump(DumpLines(e, newSha)) ==
      Some(Dumped(e.name, Lines(e.cmd), e.requiredFiles, e.files, ChosenSha(e, newSha)))
  {
    var sha := ChosenSha(e, newSha);
    var tail := TailSections(e.requiredFiles, e.files, sha);
    var cmdPart := CmdSection(e.cmd) + tail;
    var ls := DumpLines(e, newSha);
    assert ls[0] == "-" && ls[1..] == NameSection(e.name) + cmdPart;
    SectionHeads(e.requiredFiles, e.files, sha);
    CmdBack(e.cmd, tail);
    NameBack(e.name, cmdPart);
    ParseSectionsBack(e.requiredFiles, e.files, sha);
  }

  /** The text `dump` writes splits back into its lines, which read back as
      the entry, provided no name, path or fingerprint holds a line feed;
      rejoining the command lines restores the command, up to a final line
      feed, when it holds no carriage return. */
  lemma DumpReadsBack(e: Entry, newSha: Option<Sha>)
    requires '\n' !in e.name
    requires NoNewlines(e.requiredFiles) && NoNewlines(e.files)
    requires ChosenSha(e, newSha).Some? ==> '\n' !in ChosenSha(e, newSha).value
    ensures var ls := Split(Unlines(DumpLines(e, newSha)), '\n');
      && |ls| >= 1 && ls[|ls| - 1] == ""
      && ParseDump(ls[..|ls| - 1]) ==
           Some(Dumped(e.name, Lines(e.cmd), e.requiredFiles, e.files, ChosenSha(e, newSha)))
    ensures '\r' !in e.cmd ==> Unlines(Lines(e.cmd)) == Terminated(e.cmd)
  {
    var ls := DumpLines(e, newSha);
    NoNewlineInDump(e, newSha);
    SplitUnlines(ls);
    assert (ls + [""])[..|ls|] == ls;
    ParseDumpLines(e, newSha);
    if '\r' !in e.cmd {
      UnlinesLines(e.cmd);
    }
  }

  predicate NoNewlines(ls: seq<string>)
  {
    forall k :: 0 <= k < |ls| ==> '\n' !in ls[k]
  }

  lemma IndentedNoNewlines(xs: seq<string>, prefix: string)
    requires '\n' !in prefix && NoNewlines(xs)
    ensures NoNewlines(Indented(xs, prefix))
  {
    forall k | 0 <= k < |xs| ensures '\n' !in prefix + xs[k] {
      assert forall c :: c in prefix + xs[k] ==> c in prefix || c in xs[k];
    }
  }

  lemma NoNewlinesAppend(a: seq<string>, b: seq<string>)
    requires NoNewlines(a) && NoNewlines(b)
    ensures NoNewlines(a + b)
  {
    forall k | 0 <= k < |a + b| ensures '\n' !in (a + b)[k] {
      if k >= |a| { assert (a + b)[k] == b[k - |a|]; }
    }
  }

  lemma PrefixedNoNewline(prefix: string, x: string)
    requires '\n' !in prefix && '\n' !in x
    ensures '\n' !in prefix + x
  {
    assert forall c :: c in prefix + x ==> c in prefix || c in x;
  }

  lemma ListSectionNoNewlines(key: string, xs: seq<string>)
    requires '\n' !in key && NoNewlines(xs)
    ensures NoNewlines(ListSection(key, xs))
  {
    if xs != [] {
      IndentedNoNewlines(xs, ItemPrefix);
      NoNewlinesAppend([key], Indented(xs, ItemPrefix));
    }
  }

  lemma HeadSectionsNoNewlines(name: string, cmd: string)
    requires '\n' !in name
    ensures NoNewlines(NameSection(name)) && NoNewlines(CmdSection(cmd))
  {
    PrefixedNoNewline(NameKey, name);
    IndentedNoNewlines(Lines(cmd), CmdIndent);
    NoNewlinesAppend([CmdKey], Indented(Lines(cmd), CmdIndent));
  }

  lemma TailNoNewlines(required: seq<string>, files: seq<string>, sha: Option<Sha>)
    requires NoNewlines(required) && NoNewlines(files)
    requires sha.Some? ==> '\n' !in sha.value
    ensures NoNewlines(TailSections(required, files, sha))
  {
    ListSectionNoNewlines(RequiredKey, required);
    ListSectionNoNewlines(FilesKey, files);
    if sha.Some? { PrefixedNoNewline(ShaKey, sha.value); }
    NoNewlinesAppend(ListSection(FilesKey, files), ShaSection(sha));
    NoNewlinesAppend(ListSection(RequiredKey, required), ListSection(FilesKey, files) + ShaSection(sha));
  }

  lemma NoNewlineInDump(e: Entry, newSha: Option<Sha>)
    requires '\n' !in e.name
    requires NoNewlines(e.requiredFiles) && NoNewlines(e.files)
    requires ChosenSha(e, newSha).Some? ==> '\n' !in ChosenSha(e, newSha).value
    ensures NoNewlines(DumpLines(e, newSha))
  {
    var tail := TailSections(e.requiredFiles, e.files, ChosenSha(e, newSha));
    TailNoNewlines(e.requiredFiles, e.files, ChosenSha(e, newSha));
    HeadSectionsNoNewlines(e.name, e.cmd);
    NoNewlinesAppend(CmdSection(e.cmd), tail);
    NoNewlinesAppend(NameSection(e.name), CmdSection(e.cmd) + tail);
    NoNewlinesAppend(["-"], NameSection(e.name) + (CmdSection(e.cmd) + tail));
  }
}
