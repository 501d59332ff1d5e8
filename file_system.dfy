/**
 * RunOptions as the program runs it: a mutable filesystem that the loop
 * queries and changes call by call. Each method is proved against the
 * specification functions of Replacement, so the properties proved there
 * (only the shortcut disappears, only its stripped name appears, the
 * shortcut disappears only once its replacement exists) hold of every run.
 */
module Runner {
  import opened Text
  import opened ShellLink
  import opened Resolution
  import opened Replacement

  class FileSystem {
    /** The paths File.Exists accepts. */
    var files: set<string>
    /** The paths Directory.Exists accepts; nothing here changes them. */
    var dirs: set<string>
    /** Every mutating call issued so far, in order. */
    ghost var calls: seq<FsCall>

    constructor(files: set<string>, dirs: set<string>)
      ensures this.files == files && this.dirs == dirs && calls == []
    {
      this.files := files;
      this.dirs := dirs;
      calls := [];
    }

    /** File.Exists. */
    method FileExists(path: string) returns (b: bool)
      ensures b <==> path in files
    {
      b := path in files;
    }

    /** File.Delete; a missing file is not an error. */
    method DeleteFile(path: string)
      modifies this
      ensures files == old(files) - {path} && dirs == old(dirs)
      ensures calls == old(calls) + [Delete(path)]
    {
      files := files - {path};
      calls := calls + [Delete(path)];
    }

    /** CreateHardLink: the name appears only when the system reports Created. */
    method CreateHardLink(newName: string, existing: string, result: OsResult)
      modifies this
      ensures files == (if result == Created then old(files) + {newName} else old(files))
      ensures dirs == old(dirs) && calls == old(calls) + [HardLink(newName, existing)]
    {
      if result == Created {
        files := files + {newName};
      }
      calls := calls + [HardLink(newName, existing)];
    }

    /** File.Copy: the copy appears only when the system reports Created. */
    method CopyFile(from: string, to: string, result: OsResult)
      modifies this
      ensures files == (if result == Created then old(files) + {to} else old(files))
      ensures dirs == old(dirs) && calls == old(calls) + [Copy(from, to)]
    {
      if result == Created {
        files := files + {to};
      }
      calls := calls + [Copy(from, to)];
    }

    /** One iteration of the loop over a shortcut `file` whose contents are `b`. */
    method ReplaceLink(file: string, b: seq<byte>, hardlink: OsResult, copy: OsResult) returns (outcome: Outcome)
      modifies this
      ensures dirs == old(dirs)
      ensures var s := ReplaceStep(file, b, old(files), old(dirs), hardlink, copy);
        outcome == s.outcome && files == s.files && calls == old(calls) + s.calls
    {
      var r := GetShortcutTarget(file, b, files, dirs);
      if r.Failure? {
        return LinkError(r.error);
      }
      ReplaceStepResolved(file, b, files, dirs, hardlink, copy);
      outcome := ReplaceTarget(file, r.value, hardlink, copy);
    }

    /** The rest of the iteration, once the shortcut's target is known. */
    method ReplaceTarget(file: string, dest: LinkInfo, hardlink: OsResult, copy: OsResult) returns (outcome: Outcome)
      requires HasLnkSuffix(file)
      requires if dest.isFile then dest.path in files else dest.path in dirs
      modifies this
      ensures dirs == old(dirs)
      ensures var s := ReplaceResolved(file, dest, old(files), old(dirs), hardlink, copy);
        outcome == s.outcome && files == s.files && calls == old(calls) + s.calls
    {
      var source := file[..|file| - 4];
      if source == dest.path {
        DeleteFile(file);
        return SelfLinkDeleted;
      }
      if |dest.path| < 4 {
        return Error(TargetTooShort);
      }
      var target := dest.path;
      if Lower(target[|target| - 4..]) == ".lnk" {
        var stripped := target[..|target| - 4];
        var found := FileExists(stripped);
        if found {
          target := stripped;
        }
      }
      outcome := LinkTo(file, source, dest.(path := target), hardlink, copy);
    }

    /** Hardlink `source` to the target, falling back to a copy on "too many links". */
    method LinkTo(file: string, source: string, dest: LinkInfo, hardlink: OsResult, copy: OsResult)
      returns (outcome: Outcome)
      requires file != source
      modifies this
      ensures dirs == old(dirs)
      ensures var s := LinkStep(file, source, dest, old(files), hardlink, copy);
        outcome == s.outcome && files == s.files && calls == old(calls) + s.calls
    {
      CreateHardLink(source, dest.path, hardlink);
      if hardlink == Created || hardlink == SpuriousSuccess {
        var made := FileExists(source);
        if made {
          DeleteFile(file);
          return Hardlinked;
        }
        return Error(SpuriousHardLink);
      } else if hardlink == TooManyLinks {
        if dest.isFile {
          CopyFile(dest.path, source, copy);
          if copy == Created || copy == SpuriousSuccess {
            var made := FileExists(source);
            if made {
              DeleteFile(file);
              return Copied;
            }
            return CopyError(SpuriousCopy);
          }
          return CopyError(CopyRefused);
        }
        return Unreported;
      }
      return Error(HardLinkRefused);
    }

    /** The loop body of ReplaceAll: the iteration after the run `prev`. */
    method ReplaceNext(ghost prev: Run, ghost before: seq<FsCall>, c: Candidate) returns (o: Outcome)
      requires files == prev.files && calls == before + prev.calls
      modifies this
      ensures dirs == old(dirs)
      ensures var r := Advance(prev, c, dirs);
        r.outcomes == prev.outcomes + [o] && files == r.files && calls == before + r.calls
    {
      ghost var s := ReplaceStep(c.path, c.bytes, files, dirs, c.hardlink, c.copy);
      assert Advance(prev, c, dirs) == Run(prev.outcomes + [s.outcome], prev.calls + s.calls, s.files);
      o := ReplaceLink(c.path, c.bytes, c.hardlink, c.copy);
      assert calls == (before + prev.calls) + s.calls;
      Associative(before, prev.calls, s.calls);
    }

    /** The foreach in RunOptions over the enumerated shortcuts, in order. */
    method ReplaceAll(batch: seq<Candidate>) returns (outcomes: seq<Outcome>)
      modifies this
      ensures dirs == old(dirs)
      ensures var r := RunAll(batch, old(files), old(dirs));
        outcomes == r.outcomes && files == r.files && calls == old(calls) + r.calls
    {
      outcomes := [];
      var i := 0;
      while i < |batch|
        invariant 0 <= i <= |batch| && dirs == old(dirs)
        invariant var r := RunAll(batch[..i], old(files), old(dirs));
          outcomes == r.outcomes && files == r.files && calls == old(calls) + r.calls
      {
        RunAllSnoc(batch, i, old(files), old(dirs));
        var o := ReplaceNext(RunAll(batch[..i], old(files), old(dirs)), old(calls), batch[i]);
        outcomes := outcomes + [o];
        i := i + 1;
      }
      assert batch[..i] == batch;
    }
  }

  lemma Associative<T>(a: seq<T>, b: seq<T>, c: seq<T>)
    ensures (a + b) + c == a + (b + c)
  {
  }
}
