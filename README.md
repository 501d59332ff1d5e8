# LNK-2-Hardlink in Dafny

LNK-2-Hardlink walks a directory tree. For every Windows shortcut (`*.lnk`)
it finds, it replaces the shortcut with a hardlink to the shortcut's target.
The hardlink gets the shortcut's own name without `.lnk`. This project
models the core of that program (`Program.cs`) in three parts:

- **Shortcut decoding** (`ShellLink`, `Text`). `GetShortcutTarget` reads
  the LinkFlags, skips the shell item ID list, reads the LinkInfo size and
  the offset of the local base path, reads the base path as characters,
  and undoes the "`\0\0` … `\\\\` … `\0`" splice. The bytes of the file are
  a parameter. The read fails with a `LinkError` on a name that is not
  `.lnk`, on truncated input, or on a negative character count (the
  allocation-limit failure is not modelled; see "Left out").
- **Target resolution** (`Resolution`). The decoded target is checked
  against the filesystem: existing file, then existing directory, then an
  existing `<target>.LNK` file. A blank or missing target is an error. The
  filesystem is two sets of paths: the ones `File.Exists` accepts and the
  ones `Directory.Exists` accepts.
- **Per-shortcut replacement** (`Replacement`, `Runner`). This is the body
  of the loop in `RunOptions`. A shortcut that points at its own stripped
  name is deleted. A target named `*.lnk` whose stripped name exists as a
  file is redirected to that name, one level deep only. Then a hardlink is
  created. On the "too many links" failure, a file target is copied
  instead. The shortcut is deleted only when something exists under the
  new name afterwards. `ReplaceStep` specifies one iteration and `RunAll`
  the whole loop. The class `Runner.FileSystem` carries mutable `files` and
  `dirs` sets. It runs the same procedure call by call, and each of its
  methods is proved against those functions. `CreateHardLink` and
  `File.Copy` take their result (`OsResult`) as an input.

`LinkLayout` is an encoder for the part of the shortcut format the decoder
reads. It is the decoder's partner: whatever target bytes are stored, with
any flags, ID list, LinkInfo fields, padding and trailing data around them,
come back out of `ReadBasePath` unchanged.

Where the code departs from the Shell Link format (MS-SHLLINK), the model
follows the code:

- When bit 0 of the LinkFlags is clear, the LinkInfo structure is read
  right after the flags field, at offset 0x18, where the stream stands at
  that point. MS-SHLLINK places it at the end of the 0x4C-byte header.
- The HasLinkInfo flag is never consulted.

Two further facts about the code the model keeps:

- The `<target>.LNK` fallback is skipped whenever the lower-cased target
  contains `.lnk` anywhere (`Program.cs:277`).
- The base path is read with the reader's default character decoding. The
  model reads one byte per character.

## Model

| member | source | states |
|---|---|---|
| Text.IndexOf | Program.cs:246-250 | the result is the first position at or after `start` where the pattern occurs, or -1 exactly when it occurs nowhere from `start` on |
| Text.ExtensionIsLnk | Program.cs:218-221 | `Path.GetExtension(file).ToLower() == ".lnk"` holds exactly when the last four characters of the name, lower-cased, are `.lnk` |
| Text.StripLnk | Program.cs:65 | the stripped name is four characters shorter, and appending the last four characters gives back the path |
| Text.ToInt32 | Program.cs:243 | the `(int)` cast keeps the value modulo 2^32 inside the signed 32-bit range, and leaves in-range values unchanged |
| ShellLink.ReadU16LE | Program.cs:232 | succeeds exactly when two bytes are left; the value is their little-endian reading and is below 2^16; otherwise `Truncated` |
| ShellLink.ReadU32LE | Program.cs:227 | succeeds exactly when four bytes are left; the value is their little-endian reading, below 2^32, and its bit 0 is bit 0 of the first byte |
| ShellLink.LinkInfoStart | Program.cs:226-236 | the LinkInfo start is 0x4E plus the ID-list length at 0x4C when flag bit 0 is set, and 0x18 when it is clear; it fails with `Truncated` exactly when a read runs past the end |
| ShellLink.ReadLinkInfoHeader | Program.cs:236-239 | succeeds exactly when the start is found and 0x14 bytes follow it; the size is the word at the start, and the base-path offset is the word at start + 0x10 |
| ShellLink.PathLength | Program.cs:241-242 | the character count is the LinkInfo size minus the base-path offset minus the two terminating bytes |
| ShellLink.ReadChars | Program.cs:243 | returns `count` characters, fewer at the end of the input and none past it; each character is the byte at its position |
| ShellLink.ReadBasePath | Program.cs:236-244 | succeeds exactly when the header reads and the wrapped 32-bit count is not negative; the result is the characters at start + offset; failures are `Truncated` or `NegativeLength` |
| ShellLink.Splice | Program.cs:246-256 | without `\0\0` the path is unchanged; with it, the result is the part before the first `\0\0` followed by the part after the null the search ends on |
| ShellLink.SplicePrefixPairFree | Program.cs:246-252 | the kept prefix is the path up to the first `\0\0` and holds no `\0\0` of its own |
| ShellLink.SpliceCollapses | Program.cs:246-256 | for a path shaped prefix, `\0\0`, text, `\\\\`, text, `\0`, suffix (no stray markers), the splice yields exactly prefix + suffix |
| ShellLink.SpliceWithoutSeparator | Program.cs:249-255 | with no `\\\\` after the `\0\0`, the null search restarts at index 1: only one null is dropped, or the whole prefix with both nulls when the prefix is empty |
| ShellLink.DecodeTarget | Program.cs:216-256 | a name not ending in `.lnk` is `NotALinkFile`; for a `.lnk` name a failed base-path read passes its own error on; decoding succeeds exactly when the name ends in `.lnk` and the base path reads; the target is the spliced base path |
| LinkLayout.DecodeEncode | Program.cs:227-239 | reading little-endian bytes inverts writing them, for every value that fits the width |
| LinkLayout.StartOfBuilt | Program.cs:226-236 | in a built file the decoder finds the LinkInfo structure where the encoder put it, with or without an ID list |
| LinkLayout.HeaderOfBuilt | Program.cs:236-239 | the decoder reads back the LinkInfo size and base-path offset the encoder stored |
| LinkLayout.ReadBasePathOfBuilt | Program.cs:236-244 | round trip: the raw base path read from any well-sized built file is the stored target, byte for character |
| LinkLayout.DecodeLiteralTarget | Program.cs:216-256 | a stored target with no zero byte, in a file named `*.lnk`, decodes to itself |
| Resolution.Resolve | Program.cs:258-288 | a blank target fails with `TargetEmpty`; success exactly when the target exists as a file or a directory, or has no `.lnk` in it and `<target>.LNK` is a file; an existing file gives a file result, else an existing directory a directory result, else the `<target>.LNK` fallback a file result for that name; the result exists and is not blank; otherwise `TargetMissing` |
| Resolution.GetShortcutTarget | Program.cs:216-289 | a decode failure is passed on; otherwise the result is the resolution of the decoded target; on success the name ends in `.lnk` and the result exists and is not blank |
| Replacement.Redirect | Program.cs:78-90 | a `*.lnk` target whose stripped name is an existing file becomes that name; any other target is kept |
| Replacement.CopyStep | Program.cs:111-128 | a copy reported `Created` ends `Copied`; a spurious success ends `Copied` exactly when `source` already existed, and with `source` absent is `SpuriousCopy` and changes nothing; any other copy failure is `CopyRefused` and changes nothing; the shortcut is deleted, as the last call, exactly on `Copied`, and only after a reported success; `source` then exists; the first call is the copy, and the only calls are the copy and that delete |
| Replacement.LinkStep | Program.cs:92-133 | the first call is the hardlink; `Created` ends `Hardlinked`; a spurious success ends `Hardlinked` exactly when `source` exists, and otherwise is `SpuriousHardLink` with no change; any other failure but "too many links" is `HardLinkRefused` with no change; "too many links" on a directory is `Unreported` with no change, and on a file issues the copy as the second call and ends in `Copied` exactly when the copy is `Created` or spuriously succeeds with `source` present, while a spurious copy with `source` absent is `SpuriousCopy` and changes nothing; the shortcut is deleted, as the last call, only after a reported success, and `source` exists whenever it ends `Hardlinked` or `Copied` |
| Replacement.ReplaceResolved | Program.cs:64-133 | only the shortcut can vanish and only its stripped name appear; the shortcut vanishes only when its stripped name exists; its deletion is the last call, made exactly on a replacing outcome, and only for a self-link or after CreateHardLink or File.Copy reported success |
| Replacement.ReplaceStep | Program.cs:56-140 | the same guarantees for one whole iteration; in addition, when GetShortcutTarget fails (decode or resolution) the outcome is that `LinkError`, no call is issued and no file changes, and a name not ending in `.lnk` is a `NotALinkFile` error that changes nothing |
| Replacement.ReplaceStepResolved | Program.cs:59-65 | once the target resolves, the shortcut's name ends in `.lnk`, so the re-check at line 63 always passes and the iteration continues with the resolved target |
| Replacement.DeletesOnlyAfterSuccess | Program.cs:56-140 | over one whole iteration, the shortcut is deleted only when its target resolves, and then only for a self-link or after CreateHardLink or File.Copy reported success; a hardlink refused for any reason but "too many links" leaves every file in place |
| Replacement.RefusedHardLinkKeepsFiles | Program.cs:92-133 | a hardlink refused for any reason but "too many links" changes no file and is reported as an error |
| Replacement.SelfLinkIsDeleted | Program.cs:70-76 | a shortcut that points at its own stripped name is deleted, and nothing is linked or copied |
| Replacement.ChainIsRedirectedOnce | Program.cs:78-92 | a `*.lnk` target is linked from its stripped name when that is a file, and otherwise from itself; a copy, if any, comes from the same path |
| Replacement.CopyOnlyOnTooManyLinks | Program.cs:101-128 | a copy is attempted exactly when the target is not the self-link and is at least four characters long, the hardlink fails with "too many links", and the target is a file |
| Replacement.DirectoryTooManyLinksIsSilent | Program.cs:109-121 | "too many links" on a directory target leaves the files unchanged and reports nothing |
| Replacement.ShortTargetIsError | Program.cs:78-132 | a target shorter than four characters makes `Substring` throw; this is reported as an error, and nothing changes |
| Replacement.LiteralTargetIsHardlinked | Program.cs:54-96 | end to end: a shortcut whose stored target is an existing file (not itself a shortcut name) is replaced by a hardlink under its stripped name and then deleted |
| Replacement.HardlinkedLiteral | Program.cs:78-96 | a file target not named `*.lnk` is linked unchanged, and on success the shortcut is deleted |
| Replacement.RunAll | Program.cs:54-141 | the loop yields one outcome per enumerated shortcut, each iteration seeing the files the earlier ones left |
| Replacement.Advance | Program.cs:56-140 | one more iteration: only its shortcut can vanish, only its stripped name appear, and what vanishes is named `*.lnk` |
| Replacement.RunAllSnoc | Program.cs:54-141 | the loop over one more shortcut is the loop so far followed by one more iteration |
| Replacement.RunAllFrame | Program.cs:54-141 | over a whole run, only enumerated shortcuts vanish and only their stripped names appear |
| Replacement.RunAllRemovesOnlyShortcuts | Program.cs:54-141 | over a whole run, every file that vanishes is named `*.lnk` |
| Replacement.NoShortcutsNoChange | Program.cs:54-60 | a run over paths none of which is named `*.lnk` changes no file and issues no call; each outcome is `NotALinkFile` |
| Runner.FileSystem.FileExists | Program.cs:86 | answers exactly whether the path is a file |
| Runner.FileSystem.DeleteFile | Program.cs:74 | removes the path from the files and logs the call |
| Runner.FileSystem.CreateHardLink | Program.cs:194-206 | the new name appears exactly when the system reports `Created`; the call is logged |
| Runner.FileSystem.CopyFile | Program.cs:113 | the copy appears exactly when the system reports `Created`; the call is logged |
| Runner.FileSystem.ReplaceLink | Program.cs:56-140 | the outcome, the new files and the calls issued are those of `ReplaceStep`; the directories are unchanged |
| Runner.FileSystem.ReplaceTarget | Program.cs:64-133 | the outcome, the new files and the calls issued are those of `ReplaceResolved` |
| Runner.FileSystem.LinkTo | Program.cs:92-133 | the outcome, the new files and the calls issued are those of `LinkStep` |
| Runner.FileSystem.ReplaceNext | Program.cs:56-140 | one loop iteration extends the run so far exactly as `Advance` does |
| Runner.FileSystem.ReplaceAll | Program.cs:54-141 | the outcomes, the final files and the calls issued are those of `RunAll` over the batch |

## Left out

- Command-line parsing (`Main`, `Options`, `HandleParseError`, and taking the first input directory) is left out. It is I/O around the core (`Program.cs:16-52`, `Program.cs:143-146`).
- `GetFiles` (`Program.cs:150-189`) is not modelled. The breadth-first walk over directories and the `*.lnk` pattern match are replaced by the batch of candidates the loop is given. Each candidate carries its path, its bytes and what the two primitives report for it. Each directory's `*.lnk` list is taken whole before any entry of it is yielded (`Program.cs:175`), and every file a run creates lies in the directory of the shortcut being processed, so the batch fixed in advance matches what the walk yields.
- The `CreateHardLink` platform call and `File.Copy` are represented by their outcome (`OsResult`), passed in as a parameter. The message-text test for "too many links" (`Program.cs:106`) is the `TooManyLinks` outcome. Real preconditions, such as the new name already existing, are not derived.
- `File.Delete` is assumed to succeed. In the program a failing delete would throw into the surrounding handler.
- Console output is left out. Each printed line is represented by the `Outcome` of its iteration.
- `File.Open` failures (missing file, access denied) are not modelled. The shortcut's bytes are an input.
- Text handling is simplified. `ToLower` is ASCII lower-casing. `IndexOf` with a string argument is ordinal, although .NET compares culture-sensitively there (where a null character can be ignorable). `File.Exists` is exact set membership, although Windows paths are case-insensitive.
- `Path.GetExtension` is modelled only on the separators `\`, `/` and `:`. The exception it throws on invalid path characters is not modelled.
- ShellLink.ReadChars: the reader allocates a character array of the requested count before reading, and a count at the runtime's array-size limit throws OutOfMemoryException, which the loop reports as a link error. The model has no allocation limit and reads whatever bytes remain.
- ShellLink.ReadBasePath: succeeds for every non-negative count, including counts at the allocation limit where the program fails with a link error (see ShellLink.ReadChars).
- ShellLink.ReadChars: the reader's UTF-8 decoding of the base path is not modelled. The function reads one byte per character, so a multi-byte sequence is not combined.
- LinkLayout.DecodeLiteralTarget: covers only targets with no zero byte. Spliced targets are covered by ShellLink.SpliceCollapses and ShellLink.SpliceWithoutSeparator.
