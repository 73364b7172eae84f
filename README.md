# rsha entries in Dafny

rsha keeps a list of *entries* in a YAML file. Each entry has a shell
command (`cmd`), an optional `name`, two lists of paths (`files` and
`required_files`) and the fingerprint (`sha`) of the last successful run.
The fingerprint is a SHA-256 digest. Its input is the contents of every
declared path that resolves, in sorted order, followed by the command text.
When the fingerprint is out of date, `reify` runs the command and, on exit
code 0, returns the new fingerprint for the caller to store; `reify` itself
stores nothing. When required files are missing it refuses to run.
`dry_run` makes the same staleness decision without checking the required
files, and reports `DryFail` where `reify` would run the command. `dump`
writes the entry back in YAML layout.

This project models `src/entry.rs`, the entry type and all of its
operations.

- `base.dfy` (`Base`): `Option`, `Result`, and the `byte` and `i32` integer types.
- `strict_yaml.dfy` (`StrictYaml`): the parsed StrictYAML node and the
  `as_str` and `yaml[key]` lookups.
- `path_order.dfy` (`PathOrder`): canonical paths and their order.
  - The order is proved to be a total order.
  - The sort specification is proved to be a sorted permutation.
  - The only sorted arrangement of a multiset of paths is proved to be
    unique.
  - `SortInPlace` is the in-place insertion sort standing for `sort()`.
- `utf8.dfy` (`Utf8`): the bytes of the command text, with a decoder and the
  proof that encoding is injective.
- `text.dfy` (`Text`): `str::lines`, `join`, splitting, and `writeln!`
  output, with their round trips.
- `entry.dfy` (`Entry`): the entry and the operations of `src/entry.rs`.
  - `str_vec`.
  - `calc_sha`: the `Hasher` class, and `CalcSha`, which resolves the paths,
    sorts an array in place and reads each file in 1024-byte chunks.
  - `exec` and `check_then`.
  - `reify` and `dry_run`.
  - `from_yaml`.
- `dump.dfy` (`EntryDump`): `dump`, writing through a `Writer` object, and a
  reader for the layout it writes.

Everything outside the process is a parameter of the model.

- The file system is a value `FileSystem`. `canonical` maps a declared path
  to its canonical form; a missing key means `canonicalize` fails.
  `contents` maps a canonical path to its bytes; a missing key means opening
  or reading the file fails.
- The digest is a function parameter `hash: seq<byte> -> Sha`. It stands for
  SHA-256 followed by lowercase hex. Properties of the fingerprint are proved
  about the exact byte stream fed to the digest, `HashInput`.
- The subprocess is a function parameter
  `spawn: Invocation -> ProcessRun`. It gives the wait status and the file
  system the command leaves behind. The wait status is either an I/O failure
  of spawning or waiting, or the end of the process with an exit code that
  is absent when a signal ended it. "The command is not run" is stated as
  "the result does not depend on `spawn`".

Three facts about the code that are easy to get wrong:

- Paths are sorted as `PathBuf` orders them: component by component, each
  component compared by its bytes. This is not plain byte order on the
  whole path string. For example, `/a/b` comes before `/a-b`, while plain
  byte order puts it after, because `-` is below `/`.
- The file list fed to the digest is `files` followed by `required_files`
  before sorting. Sorting makes that order irrelevant, which
  `HashInputPermutation` proves.
- A path declared twice, or two declared paths with the same canonical form,
  is hashed once per declaration. Nothing removes duplicates.

## Model

| member | source | states |
|---|---|---|
| `StrictYaml.AsStr` | src/entry.rs:53 | a node has a string exactly when it is a string scalar, and the string is that scalar |
| `StrictYaml.Index` | src/entry.rs:188-192 | looking up a key gives its value in a mapping, and `BadValue` for a missing key or a node that is not a mapping |
| `Entry.Strings` | src/entry.rs:52-55 | the strings kept from an array are exactly its string items, and there are never more of them than items |
| `Entry.StrVec` | src/entry.rs:50-58 | a string is a one-item list, an array gives exactly its string items, anything else gives the empty list |
| `Entry.StringsAppend` | src/entry.rs:52-55 | filtering keeps order: the strings of two arrays in turn are the strings of the first, then of the second |
| `Entry.StrVecArrayOrder` | src/entry.rs:50-55 | `str_vec` of two arrays laid end to end is `str_vec` of the first followed by `str_vec` of the second, so it keeps the items' order and multiplicity |
| `Entry.StringsAllStrings` | src/entry.rs:52-55 | an array made only of strings reads back as exactly those strings, in order |
| `Entry.Resolve` | src/entry.rs:65-68 | resolution yields at most one path per declared path, and exactly one each iff every declared path canonicalizes |
| `Entry.ResolveAppend` | src/entry.rs:65-67 | resolving the chain of `files` and `required_files` is resolving each list in turn |
| `Entry.ResolvePermutation` | src/entry.rs:65-68 | declaring the same paths in another order resolves to a rearrangement of the same canonical paths |
| `Entry.ResolveSkips` | src/entry.rs:67 | a path that does not canonicalize is dropped wherever it stands |
| `Entry.ResolveAll` | src/entry.rs:65-68 | the collecting loop builds exactly the resolved paths of the declared ones, in declaration order |
| `PathOrder.PathLeTotal` | src/entry.rs:69 | any two paths are comparable in the `PathBuf` order |
| `PathOrder.PathLeTransitive` | src/entry.rs:69 | the `PathBuf` order is transitive |
| `PathOrder.PathLeAntisymmetric` | src/entry.rs:69 | two paths each below the other are equal |
| `PathOrder.PathLeReflexive` | src/entry.rs:69 | every path is below itself |
| `PathOrder.SortPaths` | src/entry.rs:69 | the sorted arrangement is ordered and a permutation of its input |
| `PathOrder.SortedUnique` | src/entry.rs:69 | two ordered permutations of the same paths are the same sequence, so the sort result does not depend on the algorithm |
| `PathOrder.SortPathsPermutation` | src/entry.rs:69 | sorting forgets the order the paths came in |
| `PathOrder.SortInPlace` | src/entry.rs:69 | the in-place sort leaves the array holding the sorted arrangement of its old contents |
| `PathOrder.InsertLast` | src/entry.rs:69 | one insertion step extends the ordered prefix by one element, keeps the multiset and leaves the rest of the array alone |
| `Entry.Hasher.Update` | src/entry.rs:77 | feeding bytes appends them to the hasher's input |
| `Entry.Feed` | src/entry.rs:74-78 | reading a file in chunks of at most 1024 bytes feeds exactly the file's bytes, in order |
| `Entry.HashFiles` | src/entry.rs:70-79 | the file loop succeeds iff every file can be read, and then has fed their contents one after the other |
| `Entry.CalcSha` | src/entry.rs:62-82 | `calc_sha` returns the digest of the sorted files' bytes followed by the command's UTF-8 bytes, or the I/O error |
| `Entry.ConcatAppend` | src/entry.rs:70-79 | feeding two groups of files in turn feeds the concatenation of their contents |
| `Entry.HashInputLayout` | src/entry.rs:69-80 | for any ordered arrangement of the resolved paths, the digest input is those files' bytes in that order followed by the command text, or an I/O error when one cannot be read |
| `Entry.HashInputPermutation` | src/entry.rs:65-69 | reordering the declared paths, or moving them between `files` and `required_files`, leaves the digest input unchanged |
| `Entry.HashInputSkipsMissing` | src/entry.rs:67 | adding a path that does not canonicalize leaves the digest input unchanged |
| `Entry.HashInputCmdOnly` | src/entry.rs:70-80 | with no resolvable path the digest input is the command text alone |
| `Entry.HashInputCmdSensitive` | src/entry.rs:80 | changing only the command changes the digest input |
| `Entry.HashInputFileSensitive` | src/entry.rs:70-79 | rewriting a hashed file with any different bytes changes the digest input |
| `Entry.ConcatSameShape` | src/entry.rs:70-79 | files of unchanged lengths whose concatenation is unchanged are each unchanged |
| `Entry.ConcatGrows` | src/entry.rs:70-79 | lengthening a hashed file lengthens the concatenation |
| `Entry.ResolveSameCanonical` | src/entry.rs:46-48 | resolution depends only on canonicalization, not on file contents |
| `Entry.HashInputUnframed` | src/entry.rs:70-80 | the digest input has no separators: a last file `h` with command `i` gives the same input as an empty file with command `hi` |
| `Utf8.DecodeEncode` | src/entry.rs:80 | the command's UTF-8 bytes decode back to the command |
| `Utf8.EncodeInjective` | src/entry.rs:80 | two different command texts never have the same bytes |
| `Utf8.EncodeAppend` | src/entry.rs:80 | the bytes of joined texts are the bytes of each in turn |
| `Utf8.EncodeAscii` | src/entry.rs:80 | ASCII text is hashed byte for character |
| `Entry.Decide` | src/entry.rs:102-115 | the entry has no history iff it has no stored fingerprint, is unchanged iff the fresh fingerprint equals the stored one, is changed iff they differ, and is an error iff computing the fingerprint fails |
| `Entry.CheckThen` | src/entry.rs:100-116 | `check_then` gives `Noop` for an unchanged entry, the continuation's result for one with no history or a changed fingerprint, and the fingerprint error otherwise |
| `Entry.CommandContract` | src/entry.rs:85-89 | the script is `set -xe` on its own line followed by the command, and each list variable, when the list is non-empty and no path holds a line feed, splits back into the declared paths (an empty list gives the empty variable) |
| `Entry.Exec` | src/entry.rs:84-98 | `exec` returns the exit code exactly when the run reports one; a failed spawn or wait is the I/O error `Io`, and an absent code is `Unknown` |
| `Entry.RunThenHashOutcome` | src/entry.rs:119-127 | the continuation only succeeds with a fingerprint or fails with an exit code |
| `Entry.ReifyMissingRequired` | src/entry.rs:129-134 | `MissingRequiredFiles` is the result iff some required path does not canonicalize |
| `Entry.ReifyWithoutRunning` | src/entry.rs:118-135 | with required files missing, or an entry that is unchanged or whose fingerprint fails, the result does not depend on the command; an unchanged entry with its required files is `Noop` |
| `Entry.ReifyRuns` | src/entry.rs:118-135 | a stale entry with its required files gives `Io` for a failed spawn or wait, `Unknown` for an absent code, `ExecFail` with the code, or on exit 0 the fingerprint of the files as the command left them |
| `Entry.ReifyExecSuccess` | src/entry.rs:119-123 | `ExecSuccess` happens only for a stale entry whose command exited 0, and carries the fingerprint of the files afterwards |
| `Entry.ReifyExecFail` | src/entry.rs:124-126 | `ExecFail` carries the command's own nonzero exit code, for a stale entry with its required files |
| `Entry.ReifyNeverDryFail` | src/entry.rs:118-135 | a real run never reports `DryFail` |
| `Entry.DryRunOutcome` | src/entry.rs:137-139 | a dry run is `Noop` iff the entry is unchanged, `DryFail` iff it is stale, and an error iff the fingerprint fails |
| `Entry.DryRunAgreesWithReify` | src/entry.rs:118-139 | with the required files present, a dry run says `Noop` exactly when a real run does |
| `Entry.DryRunSkipsRequiredCheck` | src/entry.rs:129-139 | a dry run does not check the required files: an unchanged entry missing one is `Noop` dry and `MissingRequiredFiles` for real |
| `Entry.FromYaml` | src/entry.rs:186-194 | a missing or non-string `name` is `MissingName`, then a missing or non-string `cmd` is `MissingCmd`; otherwise the entry carries both, `sha` holds exactly the string under `sha` and is absent when there is none, and the two lists are as `str_vec` reads them |
| `Entry.FromYamlOptionalFields` | src/entry.rs:190-192 | adding, changing or removing `files`, `required_files` or `sha` never decides success, name or command |
| `Text.Lines` | src/entry.rs:149 | no line holds a line feed, and only the empty text has no lines |
| `Text.UnlinesLines` | src/entry.rs:149-151 | writing the lines of a text without carriage returns, one per line, gives back the text ending in a line feed |
| `Text.SplitJoin` | src/entry.rs:88-89 | a non-empty, newline-joined list of paths without line feeds splits back into that list |
| `Text.SplitUnlines` | src/entry.rs:142-168 | text written one line at a time splits back into those lines and an empty remainder |
| `Text.UnlinesAppend` | src/entry.rs:142-168 | writing two groups of lines in turn writes the lines of both |
| `EntryDump.Writer.WriteLine` | src/entry.rs:142 | `writeln!` appends the line and a line feed to what was written |
| `EntryDump.ChosenSha` | src/entry.rs:167 | the fingerprint written is `new_sha` when one is given, else the stored one |
| `EntryDump.Dump` | src/entry.rs:141-171 | `dump` appends to the writer exactly the lines of the layout: marker, name unless empty, command block, each non-empty path list, fingerprint if any |
| `EntryDump.WriteAll` | src/entry.rs:149-151 | a write loop appends one indented line per item, in order |
| `EntryDump.WriteList` | src/entry.rs:153-165 | a path list writes its key and items, or nothing when it is empty |
| `EntryDump.ParseDumpLines` | src/entry.rs:141-171 | reading the layout back gives the name, the command's lines, both path lists in order and the fingerprint written |
| `EntryDump.DumpReadsBack` | src/entry.rs:141-171 | the written text splits into lines that read back as the entry when no name, path or fingerprint holds a line feed, and, for a command without carriage returns, the command lines rejoin into the command with a line feed added when it does not end in one (`Terminated`) |
| `EntryDump.TakeIndentedBack` | src/entry.rs:149-164 | an indented block reads back as its items up to the first line without the indentation |
| `EntryDump.ParseSectionsBack` | src/entry.rs:153-169 | the path lists and fingerprint read back as written, an empty list as empty and no fingerprint as none |
| `EntryDump.NoNewlineInDump` | src/entry.rs:141-171 | no written line holds a line feed when no name, path or fingerprint does |

## Left out

- The SHA-256 digest and its hex rendering (`Sha256`, `format!("{:x}")`) are
  the parameter `hash`. The model proves what is fed to it, not properties
  of SHA-256 itself.
- File I/O is reduced to the map `contents`. Every way of failing to open or
  read a file is the one error `Io`; the `std::io` error kinds are not kept.
  The read loop keeps the 1024-byte chunks but not the reuse of one buffer.
- Canonicalization, including symbolic links and permissions, is the map
  `canonical`. It is a snapshot, so a file system that changes while
  `calc_sha` runs is not modelled.
- Spawning bash, inherited stdout and stderr, and the inherited environment
  are the `spawn` parameter. The model records what is started (`Command`)
  and reads the exit status and the resulting file system from the run.
- `Display for Entry` and the `name()` accessor are not modelled, because
  they only format or return a field.
- `dump` does not model a failing `fmt::Write`: the `Writer` always accepts
  a line, so `dump` never returns an error here.
- `EntryDump.DumpReadsBack` is stated for a reader of the exact layout
  `dump` writes, not for the YAML parser. Reading a dump back with
  `from_yaml` does not give the entry back, for three reasons:
  - an empty name is not written, and `from_yaml` then fails with
    `MissingName`;
  - `lines()` drops a carriage return before each line feed, a case which
    `UnlinesLines` excludes by requiring none, and a command without a final
    line feed comes back with one (`Terminated`);
  - the YAML parser itself is not part of this model.
- The crate's `error.rs` is not part of this model. Its errors are the four
  cases the entry code uses: `Io`, `Unknown`, `MissingName` and `MissingCmd`.
- StrictYAML mapping keys are modelled as strings, and nodes other than
  strings, arrays and mappings as `BadValue`.
