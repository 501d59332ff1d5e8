/**
 * The second half of GetShortcutTarget: classifying the decoded target
 * against the filesystem. The filesystem is abstract: `files` are the paths
 * File.Exists accepts and `dirs` the paths Directory.Exists accepts.
 */
module Resolution {
  import opened Wrappers
  import opened Text
  import opened ShellLink

  /** What GetShortcutTarget returns: the target path and whether it is a file. */
  datatype LinkInfo = LinkInfo(isFile: bool, path: string)

  /**
   * An existing file, then an existing directory, then (when the lower-cased
   * target does not contain ".lnk") an existing file named target + ".LNK";
   * a blank target is rejected before any of these checks.
   */
  function Resolve(link: string, files: set<string>, dirs: set<string>): (r: Result<LinkInfo, LinkError>)
    ensures IsBlank(link) ==> r == Failure(TargetEmpty)
    ensures r.Success? ==> !IsBlank(r.value.path)
    ensures r.Success? ==> if r.value.isFile then r.value.path in files else r.value.path in dirs
    ensures r.Success? ==> r.value.path == link || r.value.path == link + ".LNK"
    ensures r.Success? <==>
      !IsBlank(link) &&
      (link in files || link in dirs || (!Contains(Lower(link), ".lnk") && link + ".LNK" in files))
    ensures !IsBlank(link) && link in files ==> r == Success(LinkInfo(true, link))
    ensures !IsBlank(link) && link !in files && link in dirs ==> r == Success(LinkInfo(false, link))
    ensures
      !IsBlank(link) && link !in files && link !in dirs && !Contains(Lower(link), ".lnk") && link + ".LNK" in files
      ==> r == Success(LinkInfo(true, link + ".LNK"))
    ensures r.Failure? && !IsBlank(link) ==> r.error == TargetMissing(link)
  {
    if IsBlank(link) then Failure(TargetEmpty)
    else if link in files then Success(LinkInfo(true, link))
    else if link in dirs then Success(LinkInfo(false, link))
    else if !Contains(Lower(link), ".lnk") && link + ".LNK" in files then
      assert !IsBlank(link + ".LNK") by {
        var i :| 0 <= i < |link| && !IsWhiteSpace(link[i]);
        assert (link + ".LNK")[i] == link[i];
      }
      Success(LinkInfo(true, link + ".LNK"))
    else Failure(TargetMissing(link))
  }

  /** GetShortcutTarget: decode the target from the file's bytes, then resolve it. */
  function GetShortcutTarget(file: string, b: seq<byte>, files: set<string>, dirs: set<string>)
    : (r: Result<LinkInfo, LinkError>)
    ensures r.Success? ==> HasLnkSuffix(file)
    ensures r.Success? ==> if r.value.isFile then r.value.path in files else r.value.path in dirs
    ensures r.Success? ==> !IsBlank(r.value.path)
    ensures DecodeTarget(file, b).Failure? ==> r == Failure(DecodeTarget(file, b).error)
    ensures DecodeTarget(file, b).Success? ==> r == Resolve(DecodeTarget(file, b).value, files, dirs)
  {
    var link :- DecodeTarget(file, b);
    Resolve(link, files, dirs)
  }
}
