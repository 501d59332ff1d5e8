/**
 * The body of the foreach in RunOptions: for one enumerated shortcut, decode
 * and resolve it, drop it when it points at its own would-be name, follow
 * one level of shortcut-to-shortcut, make a hardlink under the shortcut's
 * name without ".lnk", fall back to a copy when the target already has the
 * most links the filesystem allows, and delete the shortcut only once
 * something exists under that name.
 *
 * ReplaceStep is the specification of one iteration and RunAll of the whole
 * loop; the FileSystem class runs the same procedure step by step against
 * mutable file and directory sets. The outcomes of CreateHardLink and
 * File.Copy are inputs (OsResult), not computed.
 */
module Replacement {
  import opened Wrappers
  import opened Text
  import opened ShellLink
  import opened Resolution
  import opened LinkLayout

  /** What CreateHardLink or File.Copy reports. */
  datatype OsResult =
    | Created          // success, and the new name now exists
    | SpuriousSuccess  // success reported, but nothing exists under the new name
    | TooManyLinks     // "more links on a file than the file system supports"
    | OtherFailure     // any other error

  /** The mutating filesystem calls the procedure issues, in order. */
  datatype FsCall =
    | Delete(path: string)
    | HardLink(newName: string, existing: string)
    | Copy(from: string, to: string)

  /** Errors reported as "### ERROR". */
  datatype Fault = TargetTooShort | SpuriousHardLink | HardLinkRefused

  /** Errors reported as "### FILE COPY ERROR". */
  datatype CopyFault = CopyRefused | SpuriousCopy

  /** What happened to one shortcut, one per line the source prints (or does not). */
  datatype Outcome =
    | LinkError(error: LinkError)   // GetShortcutTarget threw
    | SelfLinkDeleted               // the shortcut pointed at its own stripped name
    | Hardlinked
    | Copied
    | CopyError(copyFault: CopyFault)
    | Error(fault: Fault)
    | Unreported                    // too many links on a directory target: nothing done, nothing printed

  predicate Replaced(o: Outcome) {
    o.SelfLinkDeleted? || o.Hardlinked? || o.Copied?
  }

  datatype Step = Step(outcome: Outcome, calls: seq<FsCall>, files: set<string>)

  /** The hardlink's name: the shortcut's path without its last four characters. */
  function SourceName(file: string): string {
    if |file| >= 4 then StripLnk(file) else file
  }

  /**
   * A target whose name ends in ".lnk" is swapped for the name
   * without it when that is an existing file; one level only.
   */
  function Redirect(path: string, files: set<string>): (target: string)
    requires |path| >= 4
    ensures target == path || (HasLnkSuffix(path) && target == StripLnk(path) && target in files)
    ensures HasLnkSuffix(path) && StripLnk(path) in files ==> target == StripLnk(path)
  {
    if Lower(path[|path| - 4..]) == ".lnk" then
      var stripped := path[..|path| - 4];
      if stripped in files then stripped else path
    else path
  }

  /** The copy fallback: copy the target to `source`, and delete the shortcut if `source` then exists. */
  function CopyStep(file: string, source: string, target: string, files: set<string>, copy: OsResult): (s: Step)
    requires file != source
    ensures files - {file} <= s.files <= files + {source}
    ensures file in files && file !in s.files ==> source in s.files
    ensures Delete(file) in s.calls <==> s.outcome == Copied
    ensures s.outcome == Copied ==> file !in s.files && s.calls[|s.calls| - 1] == Delete(file)
    ensures s.outcome != Copied ==> s.files - {source} == files - {source}
    ensures s.outcome.Copied? || s.outcome.CopyError?
    ensures forall c :: c in s.calls ==> c == Delete(file) || c == Copy(target, source)
    ensures copy == Created ==> s.outcome == Copied
    ensures copy == SpuriousSuccess ==> (s.outcome == Copied <==> source in files)
    ensures copy == OtherFailure || copy == TooManyLinks ==>
      s == Step(CopyError(CopyRefused), [Copy(target, source)], files)
    ensures Delete(file) in s.calls ==> copy == Created || copy == SpuriousSuccess
    ensures copy == SpuriousSuccess && source !in files ==>
      s == Step(CopyError(SpuriousCopy), [Copy(target, source)], files)
    ensures |s.calls| > 0 && s.calls[0] == Copy(target, source)
    ensures s.outcome == Copied ==> source in s.files
  {
    var after := if copy == Created then files + {source} else files;
    var calls := [Copy(target, source)];
    if copy == Created || copy == SpuriousSuccess then
      if source in after then Step(Copied, calls + [Delete(file)], after - {file})
      else Step(CopyError(SpuriousCopy), calls, after)
    else Step(CopyError(CopyRefused), calls, after)
  }

  /**
   * Hardlink `source` to the target; on success delete the
   * shortcut if `source` exists; on "too many links" copy instead, files only.
   */
  function LinkStep(file: string, source: string, dest: LinkInfo, files: set<string>,
                    hardlink: OsResult, copy: OsResult): (s: Step)
    requires file != source
    ensures files - {file} <= s.files <= files + {source}
    ensures file in files && file !in s.files ==> source in s.files
    ensures Delete(file) in s.calls <==> s.outcome == Hardlinked || s.outcome == Copied
    ensures s.outcome == Hardlinked || s.outcome == Copied ==>
      file !in s.files && s.calls[|s.calls| - 1] == Delete(file)
    ensures s.outcome != Hardlinked && s.outcome != Copied ==> s.files - {source} == files - {source}
    ensures !s.outcome.LinkError? && !s.outcome.SelfLinkDeleted?
    ensures |s.calls| > 0 && s.calls[0] == HardLink(source, dest.path)
    ensures forall c :: c in s.calls ==> c == Delete(file) || c == HardLink(source, dest.path) || c == Copy(dest.path, source)
    ensures hardlink == Created ==> s.outcome == Hardlinked
    ensures hardlink == SpuriousSuccess ==> (s.outcome == Hardlinked <==> source in files)
    ensures hardlink == SpuriousSuccess && source !in files ==>
      s == Step(Error(SpuriousHardLink), [HardLink(source, dest.path)], files)
    ensures hardlink == OtherFailure ==> s == Step(Error(HardLinkRefused), [HardLink(source, dest.path)], files)
    ensures hardlink == TooManyLinks && !dest.isFile ==> s == Step(Unreported, [HardLink(source, dest.path)], files)
    ensures hardlink == TooManyLinks && dest.isFile ==>
      (s.outcome.Copied? || s.outcome.CopyError?) &&
      (s.outcome == Copied <==> copy == Created || (copy == SpuriousSuccess && source in files))
    ensures Delete(file) in s.calls ==>
      hardlink == Created || hardlink == SpuriousSuccess ||
      (hardlink == TooManyLinks && dest.isFile && (copy == Created || copy == SpuriousSuccess))
    ensures hardlink == TooManyLinks && dest.isFile && copy == SpuriousSuccess && source !in files ==>
      s == Step(CopyError(SpuriousCopy), [HardLink(source, dest.path), Copy(dest.path, source)], files)
    ensures hardlink == TooManyLinks && dest.isFile ==> |s.calls| > 1 && s.calls[1] == Copy(dest.path, source)
    ensures s.outcome == Hardlinked || s.outcome == Copied ==> source in s.files
  {
    var after := if hardlink == Created then files + {source} else files;
    var calls := [HardLink(source, dest.path)];
    if hardlink == Created || hardlink == SpuriousSuccess then
      if source in after then Step(Hardlinked, calls + [Delete(file)], after - {file})
      else Step(Error(SpuriousHardLink), calls, after)
    else if hardlink == TooManyLinks then
      if dest.isFile then
        var c := CopyStep(file, source, dest.path, after, copy);
        Step(c.outcome, calls + c.calls, c.files)
      else Step(Unreported, calls, after)
    else Step(Error(HardLinkRefused), calls, after)
  }

  /**
   * One iteration of the loop in RunOptions. Whatever the decoder and the
   * primitives do: only the shortcut may disappear and only its stripped
   * name may appear; the shortcut disappears only when something exists
   * under the stripped name, and only with a replacing outcome; a decode
   * failure touches nothing.
   */
  function ReplaceStep(file: string, b: seq<byte>, files: set<string>, dirs: set<string>,
                       hardlink: OsResult, copy: OsResult): (s: Step)
    ensures files - {file} <= s.files <= files + {SourceName(file)}
    ensures file in files && file !in s.files ==> SourceName(file) in s.files || SourceName(file) in dirs
    ensures Delete(file) in s.calls <==> Replaced(s.outcome)
    ensures Replaced(s.outcome) ==> file !in s.files && s.calls[|s.calls| - 1] == Delete(file)
    ensures !Replaced(s.outcome) ==> s.files - {SourceName(file)} == files - {SourceName(file)}
    ensures forall c :: c in s.calls ==>
      c == Delete(file) || (c.HardLink? && c.newName == SourceName(file)) || (c.Copy? && c.to == SourceName(file))
    ensures s.outcome.LinkError? ==> s.files == files && s.calls == []
    ensures !HasLnkSuffix(file) ==> s == Step(LinkError(NotALinkFile), [], files)
    ensures GetShortcutTarget(file, b, files, dirs).Failure? ==>
      s == Step(LinkError(GetShortcutTarget(file, b, files, dirs).error), [], files)
  {
    var r := GetShortcutTarget(file, b, files, dirs);
    if r.Failure? then Step(LinkError(r.error), [], files)
    else ReplaceResolved(file, r.value, files, dirs, hardlink, copy)
  }

  /** The rest of the iteration once GetShortcutTarget has succeeded. */
  function ReplaceResolved(file: string, dest: LinkInfo, files: set<string>, dirs: set<string>,
                           hardlink: OsResult, copy: OsResult): (s: Step)
    requires HasLnkSuffix(file)
    requires if dest.isFile then dest.path in files else dest.path in dirs
    ensures files - {file} <= s.files <= files + {StripLnk(file)}
    ensures file in files && file !in s.files ==> StripLnk(file) in s.files || StripLnk(file) in dirs
    ensures Delete(file) in s.calls <==> Replaced(s.outcome)
    ensures Replaced(s.outcome) ==> file !in s.files && s.calls[|s.calls| - 1] == Delete(file)
    ensures !Replaced(s.outcome) ==> s.files - {StripLnk(file)} == files - {StripLnk(file)}
    ensures forall c :: c in s.calls ==>
      c == Delete(file) || (c.HardLink? && c.newName == StripLnk(file)) || (c.Copy? && c.to == StripLnk(file))
    ensures !s.outcome.LinkError?
    ensures Delete(file) in s.calls ==>
      dest.path == StripLnk(file) || hardlink == Created || hardlink == SpuriousSuccess ||
      (hardlink == TooManyLinks && dest.isFile && (copy == Created || copy == SpuriousSuccess))
  {
    var source := StripLnk(file);
    if source == dest.path then Step(SelfLinkDeleted, [Delete(file)], files - {file})
    else if |dest.path| < 4 then Step(Error(TargetTooShort), [], files)
    else LinkStep(file, source, dest.(path := Redirect(dest.path, files)), files, hardlink, copy)
  }

  /** A shortcut that points at its own stripped name is deleted and nothing is linked or copied. */
  lemma SelfLinkIsDeleted(file: string, dest: LinkInfo, files: set<string>, dirs: set<string>,
                          hardlink: OsResult, copy: OsResult)
    requires HasLnkSuffix(file) && (if dest.isFile then dest.path in files else dest.path in dirs)
    requires dest.path == StripLnk(file)
    ensures ReplaceResolved(file, dest, files, dirs, hardlink, copy) == Step(SelfLinkDeleted, [Delete(file)], files - {file})
  {
  }

  /**
   * A target named *.lnk whose stripped name is an existing file is linked
   * (or copied) from the stripped name; otherwise from the target itself.
   * The stripped name is not examined again.
   */
  lemma ChainIsRedirectedOnce(file: string, dest: LinkInfo, files: set<string>, dirs: set<string>,
                              hardlink: OsResult, copy: OsResult)
    requires HasLnkSuffix(file) && (if dest.isFile then dest.path in files else dest.path in dirs)
    requires dest.path != StripLnk(file) && HasLnkSuffix(dest.path)
    ensures
      var target := if StripLnk(dest.path) in files then StripLnk(dest.path) else dest.path;
      var s := ReplaceResolved(file, dest, files, dirs, hardlink, copy);
      |s.calls| > 0 && s.calls[0] == HardLink(StripLnk(file), target) &&
      (hardlink == TooManyLinks && dest.isFile ==> |s.calls| > 1 && s.calls[1] == Copy(target, StripLnk(file)))
  {
  }

  /**
   * A copy is attempted exactly when the hardlink failed with "too many
   * links" and the target is a file.
   */
  lemma CopyOnlyOnTooManyLinks(file: string, dest: LinkInfo, files: set<string>, dirs: set<string>,
                               hardlink: OsResult, copy: OsResult)
    requires HasLnkSuffix(file) && (if dest.isFile then dest.path in files else dest.path in dirs)
    ensures
      var s := ReplaceResolved(file, dest, files, dirs, hardlink, copy);
      (exists c :: c in s.calls && c.Copy?) <==>
        dest.path != StripLnk(file) && |dest.path| >= 4 && hardlink == TooManyLinks && dest.isFile
  {
    var s := ReplaceResolved(file, dest, files, dirs, hardlink, copy);
    if dest.path != StripLnk(file) && |dest.path| >= 4 && hardlink == TooManyLinks && dest.isFile {
      assert s.calls[1].Copy?;
    }
  }

  /** Too many links on a directory target: the hardlink attempt is all that happens. */
  lemma DirectoryTooManyLinksIsSilent(file: string, dest: LinkInfo, files: set<string>, dirs: set<string>, copy: OsResult)
    requires HasLnkSuffix(file) && dest.path in dirs && !dest.isFile
    requires dest.path != StripLnk(file) && |dest.path| >= 4
    ensures ReplaceResolved(file, dest, files, dirs, TooManyLinks, copy).outcome == Unreported
    ensures ReplaceResolved(file, dest, files, dirs, TooManyLinks, copy).files == files
  {
  }

  /** A target path shorter than four characters is a plain error and changes nothing. */
  lemma ShortTargetIsError(file: string, dest: LinkInfo, files: set<string>, dirs: set<string>,
                           hardlink: OsResult, copy: OsResult)
    requires HasLnkSuffix(file) && (if dest.isFile then dest.path in files else dest.path in dirs)
    requires dest.path != StripLnk(file) && |dest.path| < 4
    ensures ReplaceResolved(file, dest, files, dirs, hardlink, copy) == Step(Error(TargetTooShort), [], files)
  {
  }

  /** Once GetShortcutTarget has succeeded, the iteration is ReplaceResolved on its result. */
  lemma ReplaceStepResolved(file: string, b: seq<byte>, files: set<string>, dirs: set<string>,
                            hardlink: OsResult, copy: OsResult)
    requires GetShortcutTarget(file, b, files, dirs).Success?
    ensures HasLnkSuffix(file)
    ensures ReplaceStep(file, b, files, dirs, hardlink, copy) ==
      ReplaceResolved(file, GetShortcutTarget(file, b, files, dirs).value, files, dirs, hardlink, copy)
  {
  }

  /**
   * Deletion safety for a whole iteration: the shortcut is deleted only when
   * it resolves, and then only in the self-link case or after CreateHardLink
   * or File.Copy reported success; in particular any other hardlink failure
   * leaves the shortcut in place.
   */
  lemma {:induction false} DeletesOnlyAfterSuccess(file: string, b: seq<byte>, files: set<string>, dirs: set<string>,
                                                   hardlink: OsResult, copy: OsResult)
    ensures var s := ReplaceStep(file, b, files, dirs, hardlink, copy);
      var r := GetShortcutTarget(file, b, files, dirs);
      Delete(file) in s.calls ==>
        r.Success? &&
        (r.value.path == StripLnk(file) || hardlink == Created || hardlink == SpuriousSuccess ||
         (hardlink == TooManyLinks && r.value.isFile && (copy == Created || copy == SpuriousSuccess)))
    ensures var s := ReplaceStep(file, b, files, dirs, hardlink, copy);
      var r := GetShortcutTarget(file, b, files, dirs);
      hardlink == OtherFailure && (r.Failure? || r.value.path != StripLnk(file)) ==> s.files == files
  {
    var r := GetShortcutTarget(file, b, files, dirs);
    if r.Success? {
      ReplaceStepResolved(file, b, files, dirs, hardlink, copy);
      if hardlink == OtherFailure && r.value.path != StripLnk(file) {
        RefusedHardLinkKeepsFiles(file, r.value, files, dirs, copy);
      }
    }
  }

  /** A refused hardlink, other than "too many links", changes no file. */
  lemma RefusedHardLinkKeepsFiles(file: string, dest: LinkInfo, files: set<string>, dirs: set<string>, copy: OsResult)
    requires HasLnkSuffix(file) && (if dest.isFile then dest.path in files else dest.path in dirs)
    requires dest.path != StripLnk(file)
    ensures ReplaceResolved(file, dest, files, dirs, OtherFailure, copy).files == files
    ensures ReplaceResolved(file, dest, files, dirs, OtherFailure, copy).outcome == Error(if |dest.path| < 4 then TargetTooShort else HardLinkRefused)
  {
  }

  /**
   * The common case end to end: a shortcut whose stored base path (no zero
   * bytes, not itself a shortcut name) names an existing file is replaced by
   * a hardlink under the shortcut's stripped name, and then deleted.
   */
  lemma {:induction false} LiteralTargetIsHardlinked(file: string, l: Layout, files: set<string>, dirs: set<string>, copy: OsResult)
    requires WellSized(l) && HasLnkSuffix(file)
    requires forall i :: 0 <= i < |l.target| ==> l.target[i] != 0
    requires Chars(l.target) in files && !IsBlank(Chars(l.target))
    requires |l.target| >= 4 && !HasLnkSuffix(Chars(l.target)) && Chars(l.target) != StripLnk(file)
    ensures ReplaceStep(file, Build(l), files, dirs, Created, copy) ==
      Step(Hardlinked, [HardLink(StripLnk(file), Chars(l.target)), Delete(file)], (files + {StripLnk(file)}) - {file})
  {
    var t := Chars(l.target);
    DecodeLiteralTarget(file, l);
    assert GetShortcutTarget(file, Build(l), files, dirs) == Success(LinkInfo(true, t));
    ReplaceStepResolved(file, Build(l), files, dirs, Created, copy);
    HardlinkedLiteral(file, LinkInfo(true, t), files, dirs, copy);
  }

  lemma HardlinkedLiteral(file: string, dest: LinkInfo, files: set<string>, dirs: set<string>, copy: OsResult)
    requires HasLnkSuffix(file) && dest.isFile && dest.path in files
    requires |dest.path| >= 4 && !HasLnkSuffix(dest.path) && dest.path != StripLnk(file)
    ensures ReplaceResolved(file, dest, files, dirs, Created, copy) ==
      Step(Hardlinked, [HardLink(StripLnk(file), dest.path), Delete(file)], (files + {StripLnk(file)}) - {file})
  {
    assert Redirect(dest.path, files) == dest.path;
    assert dest.(path := dest.path) == dest;
  }

  /** One enumerated shortcut: its path, its bytes, and what the two primitives report for it. */
  datatype Candidate = Candidate(path: string, bytes: seq<byte>, hardlink: OsResult, copy: OsResult)

  datatype Run = Run(outcomes: seq<Outcome>, calls: seq<FsCall>, files: set<string>)

  function Paths(batch: seq<Candidate>): set<string> {
    set c | c in batch :: c.path
  }

  function Sources(batch: seq<Candidate>): set<string> {
    set c | c in batch :: SourceName(c.path)
  }

  /** The whole foreach over the enumerated shortcuts, in order; each iteration sees the files the earlier ones left. */
  function RunAll(batch: seq<Candidate>, files: set<string>, dirs: set<string>): (r: Run)
    ensures |r.outcomes| == |batch|
    decreases |batch|
  {
    if batch == [] then Run([], [], files)
    else Advance(RunAll(batch[..|batch| - 1], files, dirs), batch[|batch| - 1], dirs)
  }

  /** Over a whole run, only enumerated shortcuts disappear and only their stripped names appear. */
  lemma {:induction false} RunAllFrame(batch: seq<Candidate>, files: set<string>, dirs: set<string>)
    ensures var r := RunAll(batch, files, dirs);
      files - Paths(batch) <= r.files <= files + Sources(batch)
    decreases |batch|
  {
    if batch != [] {
      var init := batch[..|batch| - 1];
      var c := batch[|batch| - 1];
      RunAllFrame(init, files, dirs);
      SplitLast(batch);
      FrameStep(files, RunAll(init, files, dirs).files, RunAll(batch, files, dirs).files, batch, init, c);
    }
  }

  /** Over a whole run, every file that disappears is named like a shortcut. */
  lemma {:induction false} RunAllRemovesOnlyShortcuts(batch: seq<Candidate>, files: set<string>, dirs: set<string>)
    ensures var r := RunAll(batch, files, dirs);
      forall f :: f in files && f !in r.files ==> HasLnkSuffix(f)
    decreases |batch|
  {
    if batch != [] {
      var init := batch[..|batch| - 1];
      RunAllRemovesOnlyShortcuts(init, files, dirs);
      ExtendRemoved(files, RunAll(init, files, dirs).files, RunAll(batch, files, dirs).files);
    }
  }

  /** One more iteration: its outcome and calls are appended, its files replace the old ones. */
  function Advance(prev: Run, c: Candidate, dirs: set<string>): (r: Run)
    ensures |r.outcomes| == |prev.outcomes| + 1
    ensures prev.files - {c.path} <= r.files <= prev.files + {SourceName(c.path)}
    ensures forall f :: f in prev.files && f !in r.files ==> HasLnkSuffix(f)
  {
    var s := ReplaceStep(c.path, c.bytes, prev.files, dirs, c.hardlink, c.copy);
    Run(prev.outcomes + [s.outcome], prev.calls + s.calls, s.files)
  }

  /** RunAll over one more candidate is one more Advance. */
  lemma RunAllSnoc(batch: seq<Candidate>, i: nat, files: set<string>, dirs: set<string>)
    requires i < |batch|
    ensures RunAll(batch[..i + 1], files, dirs) == Advance(RunAll(batch[..i], files, dirs), batch[i], dirs)
  {
    assert batch[..i + 1][..i] == batch[..i];
  }

  lemma SnocSets(batch: seq<Candidate>, init: seq<Candidate>, c: Candidate)
    requires batch == init + [c]
    ensures Paths(batch) == Paths(init) + {c.path}
    ensures Sources(batch) == Sources(init) + {SourceName(c.path)}
  {
  }

  lemma SplitLast<T>(s: seq<T>)
    requires s != []
    ensures s == s[..|s| - 1] + [s[|s| - 1]]
  {
  }

  lemma FrameStep(files: set<string>, before: set<string>, after: set<string>,
                  batch: seq<Candidate>, init: seq<Candidate>, c: Candidate)
    requires batch == init + [c]
    requires files - Paths(init) <= before <= files + Sources(init)
    requires before - {c.path} <= after <= before + {SourceName(c.path)}
    ensures files - Paths(batch) <= after <= files + Sources(batch)
  {
    SnocSets(batch, init, c);
    ExtendFrame(files, before, after, Paths(init), Sources(init), c.path, SourceName(c.path));
  }

  lemma ExtendRemoved(files: set<string>, before: set<string>, after: set<string>)
    requires forall f :: f in files && f !in before ==> HasLnkSuffix(f)
    requires forall f :: f in before && f !in after ==> HasLnkSuffix(f)
    ensures forall f :: f in files && f !in after ==> HasLnkSuffix(f)
  {
  }

  lemma ExtendFrame(files: set<string>, before: set<string>, after: set<string>,
                    paths: set<string>, sources: set<string>, path: string, source: string)
    requires files - paths <= before <= files + sources
    requires before - {path} <= after <= before + {source}
    ensures files - (paths + {path}) <= after <= files + (sources + {source})
  {
  }

  /** A batch with no path named like a shortcut changes nothing and issues no call. */
  lemma {:induction false} NoShortcutsNoChange(batch: seq<Candidate>, files: set<string>, dirs: set<string>)
    requires forall i :: 0 <= i < |batch| ==> !HasLnkSuffix(batch[i].path)
    ensures RunAll(batch, files, dirs).files == files
    ensures RunAll(batch, files, dirs).calls == []
    ensures forall i :: 0 <= i < |batch| ==> RunAll(batch, files, dirs).outcomes[i] == LinkError(NotALinkFile)
    decreases |batch|
  {
    if batch != [] {
      var init := batch[..|batch| - 1];
      NoShortcutsNoChange(init, files, dirs);
    }
  }
}
