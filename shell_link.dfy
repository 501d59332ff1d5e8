/**
 * The byte-level part of GetShortcutTarget: fixed-offset little-endian reads
 * of a Shell Link (.lnk) file, with the stream position written out as
 * explicit offsets, and the "\0\0" splice applied to the characters read.
 *
 * Positions follow the code, not the Shell Link format document: when bit 0
 * of LinkFlags is clear the LinkInfo structure is read at 0x18, the position
 * right after the flags, and the HasLinkInfo flag is never consulted.
 */
module ShellLink {
  import opened Wrappers
  import opened Text

  /** One byte of the shortcut file. */
  newtype byte = x: int | 0 <= x < 256

  /** Why GetShortcutTarget gives up; each stands for an exception the source throws. */
  datatype LinkError =
    | NotALinkFile            // the extension check before the file is opened
    | Truncated               // a fixed-width read ran past the end of the file
    | NegativeLength          // ReadChars refused a negative count
    | TargetEmpty             // the decoded target is empty or whitespace
    | TargetMissing(target: string)  // nothing exists at the decoded target

  function Pow256(n: nat): (p: nat)
    ensures p >= 1
  {
    if n == 0 then 1 else 256 * Pow256(n - 1)
  }

  /** The unsigned little-endian number a byte string stands for (reference definition). */
  function LittleEndian(bytes: seq<byte>): (v: nat)
    ensures v < Pow256(|bytes|)
  {
    if bytes == [] then 0 else bytes[0] as nat + 256 * LittleEndian(bytes[1..])
  }

  /** BinaryReader.ReadUInt16 at `pos`. */
  function ReadU16LE(b: seq<byte>, pos: nat): (r: Result<nat, LinkError>)
    ensures r.Success? <==> pos + 2 <= |b|
    ensures r.Success? ==> r.value == LittleEndian(b[pos..pos + 2]) && r.value < 0x1_0000
    ensures r.Failure? ==> r.error == Truncated
  {
    if pos + 2 <= |b| then
      var v := b[pos] as nat + 0x100 * (b[pos + 1] as nat);
      assert LittleEndian(b[pos..pos + 2]) == v by {
        assert b[pos..pos + 2][1..] == [b[pos + 1]];
        assert LittleEndian([b[pos + 1]]) == b[pos + 1] as nat + 256 * LittleEndian([]);
      }
      Success(v)
    else
      Failure(Truncated)
  }

  /** BinaryReader.ReadUInt32 at `pos`. */
  function ReadU32LE(b: seq<byte>, pos: nat): (r: Result<nat, LinkError>)
    ensures r.Success? <==> pos + 4 <= |b|
    ensures r.Success? ==> r.value == LittleEndian(b[pos..pos + 4]) && r.value < 0x1_0000_0000
    ensures r.Success? ==> r.value % 2 == b[pos] as nat % 2
    ensures r.Failure? ==> r.error == Truncated
  {
    if pos + 4 <= |b| then
      var high := b[pos + 1] as nat + 256 * (b[pos + 2] as nat + 256 * (b[pos + 3] as nat));
      var v := b[pos] as nat + 256 * high;
      FourBytes(b[pos..pos + 4]);
      LowBit(b[pos] as nat, high);
      Success(v)
    else
      Failure(Truncated)
  }

  lemma FourBytes(s: seq<byte>)
    requires |s| == 4
    ensures LittleEndian(s) == s[0] as nat + 256 * (s[1] as nat + 256 * (s[2] as nat + 256 * (s[3] as nat)))
    ensures LittleEndian(s) < 0x1_0000_0000
  {
    assert s[1..][1..][1..] == [s[3]];
    assert LittleEndian([s[3]]) == s[3] as nat + 256 * LittleEndian([]);
    assert LittleEndian(s[1..][1..]) == s[2] as nat + 256 * (s[3] as nat);
    assert LittleEndian(s[1..]) == s[1] as nat + 256 * (s[2] as nat + 256 * (s[3] as nat));
    assert Pow256(4) == 0x1_0000_0000 by {
      assert Pow256(1) == 256;
      assert Pow256(2) == 0x1_0000;
      assert Pow256(3) == 0x100_0000;
    }
  }

  lemma LowBit(low: nat, high: nat)
    ensures (low + 256 * high) % 2 == low % 2
  {
    assert low + 256 * high == low + 2 * (128 * high);
  }

  /**
   * Where the LinkInfo structure is taken to start: after the LinkTargetIDList
   * (0x4E plus its IDListSize at 0x4C) when bit 0 of the flags at 0x14 is set,
   * otherwise at 0x18, the position right after the flags read.
   */
  function LinkInfoStart(b: seq<byte>): (r: Result<nat, LinkError>)
    ensures r.Success? <==> 0x18 <= |b| && (b[0x14] as nat % 2 == 1 ==> 0x4E <= |b|)
    ensures r.Success? ==>
      r.value == if b[0x14] as nat % 2 == 1 then 0x4E + LittleEndian(b[0x4C..0x4E]) else 0x18
    ensures r.Failure? ==> r.error == Truncated
  {
    var flags :- ReadU32LE(b, 0x14);      // position 0x18
    if flags % 2 == 1 then                // (flags & 1) == 1
      var idListSize :- ReadU16LE(b, 0x4C);  // position 0x4E
      Success(0x4E + idListSize)          // Seek(idListSize, Current)
    else
      Success(0x18)
  }

  /** The three numbers the decoder takes from the LinkInfo structure. */
  datatype LinkInfoHeader = LinkInfoHeader(start: nat, size: nat, basePathOffset: nat)

  /**
   * LinkInfoSize at the structure's start and LocalBasePathOffset at offset
   * 0x10 of it (a 4-byte read followed by a 0xC skip).
   */
  function ReadLinkInfoHeader(b: seq<byte>): (r: Result<LinkInfoHeader, LinkError>)
    ensures r.Success? <==> LinkInfoStart(b).Success? && LinkInfoStart(b).value + 0x14 <= |b|
    ensures r.Success? ==>
      var start := LinkInfoStart(b).value;
      r.value.start == start &&
      r.value.size == LittleEndian(b[start..start + 4]) &&
      r.value.basePathOffset == LittleEndian(b[start + 0x10..start + 0x14])
    ensures r.Failure? ==> r.error == Truncated
  {
    var start :- LinkInfoStart(b);                    // fileInfoStartsAt
    var size :- ReadU32LE(b, start);                  // position start + 4
    var basePathOffset :- ReadU32LE(b, start + 4 + 0xC);  // Seek(0xC, Current), then read
    Success(LinkInfoHeader(start, size, basePathOffset))
  }

  /**
   * The count handed to ReadChars, computed as the source does from the
   * stream position after seeking to start + basePathOffset; the structure's
   * start cancels out.
   */
  function PathLength(h: LinkInfoHeader): (n: int)
    ensures n == h.size - h.basePathOffset - 2
  {
    var position := h.start + h.basePathOffset;
    (h.size + h.start) - position - 2
  }

  /** One character per byte: the decoder is modelled on single-byte (ASCII) path text. */
  function ByteChar(x: byte): char {
    (x as int) as char
  }

  function Chars(bs: seq<byte>): (s: string)
    ensures |s| == |bs|
    ensures forall i :: 0 <= i < |bs| ==> s[i] == ByteChar(bs[i])
  {
    seq(|bs|, i requires 0 <= i < |bs| => ByteChar(bs[i]))
  }

  /** BinaryReader.ReadChars(count) at `pos`: up to `count` characters, fewer at the end of the file. */
  function ReadChars(b: seq<byte>, pos: nat, count: nat): (s: string)
    ensures |s| == if pos >= |b| then 0 else if pos + count <= |b| then count else |b| - pos
    ensures forall i :: 0 <= i < |s| ==> pos + i < |b| && s[i] == ByteChar(b[pos + i])
  {
    if pos >= |b| then []
    else Chars(b[pos..if pos + count <= |b| then pos + count else |b|])
  }

  /**
   * The raw base path: PathLength characters read from start + basePathOffset,
   * after the unchecked cast of the count to a 32-bit int.
   */
  function ReadBasePath(b: seq<byte>): (r: Result<string, LinkError>)
    ensures r.Success? <==>
      ReadLinkInfoHeader(b).Success? &&
      ToInt32(ReadLinkInfoHeader(b).value.size - ReadLinkInfoHeader(b).value.basePathOffset - 2) >= 0
    ensures r.Success? ==>
      var h := ReadLinkInfoHeader(b).value;
      r.value == ReadChars(b, h.start + h.basePathOffset, ToInt32(h.size - h.basePathOffset - 2))
    ensures r.Failure? ==> r.error == Truncated || r.error == NegativeLength
  {
    var h :- ReadLinkInfoHeader(b);
    var count := ToInt32(PathLength(h));
    if count < 0 then Failure(NegativeLength)
    else Success(ReadChars(b, h.start + h.basePathOffset, count))
  }

  /** When the whole count lies inside the file, ReadBasePath returns exactly those bytes. */
  lemma ReadBasePathWithin(b: seq<byte>, h: LinkInfoHeader, path: seq<byte>)
    requires ReadLinkInfoHeader(b) == Success(h)
    requires ToInt32(h.size - h.basePathOffset - 2) == |path|
    requires h.start + h.basePathOffset + |path| <= |b|
    requires b[h.start + h.basePathOffset..h.start + h.basePathOffset + |path|] == path
    ensures ReadBasePath(b) == Success(Chars(path))
  {
    var p := h.start + h.basePathOffset;
    if p < |b| {
      assert ReadChars(b, p, |path|) == Chars(b[p..p + |path|]);
    }
  }

  /**
   * The "\0\0" splice: when the raw path holds "\0\0", keep what precedes it
   * and what follows the first '\0' found at or after the end of the first
   * "\\\\" after it (at or after index 1 when there is no "\\\\").
   */
  function Splice(link: string): (r: string)
    ensures !Contains(link, "\0\0") ==> r == link
    ensures Contains(link, "\0\0") ==>
      var begin := IndexOf(link, "\0\0", 0);
      begin + 2 <= |link| && begin <= |r| && r[..begin] == link[..begin] &&
      r[begin..] == link[SpliceEnd(link, begin)..]
  {
    var begin := IndexOf(link, "\0\0", 0);
    if begin > -1 then
      var end := SpliceEnd(link, begin);
      link[..begin] + link[end..]
    else
      link
  }

  /** Where the kept suffix starts: one past the first '\0' at or after the first "\\\\" after `begin` + 2. */
  function SpliceEnd(link: string, begin: nat): (end: nat)
    requires begin + 2 <= |link|
    ensures end <= |link|
    ensures end == 0 || link[end - 1] == '\0'
  {
    var e := IndexOf(link, "\\\\", begin + 2) + 2;
    IndexOf(link, "\0", e) + 1
  }

  /** The part kept in front of the first "\0\0" holds no "\0\0" of its own. */
  lemma {:induction false} SplicePrefixPairFree(link: string)
    requires Contains(link, "\0\0")
    ensures var begin := IndexOf(link, "\0\0", 0);
      Splice(link)[..begin] == link[..begin] && !Contains(link[..begin], "\0\0")
  {
    var begin := IndexOf(link, "\0\0", 0);
    forall i | 0 <= i <= begin
      ensures !OccursAt(link[..begin], "\0\0", i)
    {
      if OccursAt(link[..begin], "\0\0", i) {
        assert link[..begin][i..i + 2] == link[i..i + 2];
        assert OccursAt(link, "\0\0", i);
      }
    }
    IndexOfAbsent(link[..begin], "\0\0", 0);
  }

  /**
   * The well-formed instance of the encoding the splice undoes: a prefix
   * without '\0', "\0\0", text without '\\', "\\\\", text without '\0',
   * "\0", suffix. The splice joins prefix and suffix directly.
   */
  lemma SpliceCollapses(p: string, q: string, m: string, t: string)
    requires forall i :: 0 <= i < |p| ==> p[i] != '\0'
    requires forall i :: 0 <= i < |q| ==> q[i] != '\\'
    requires forall i :: 0 <= i < |m| ==> m[i] != '\0'
    ensures Splice(p + "\0\0" + q + "\\\\" + m + "\0" + t) == p + t
  {
    var link := p + "\0\0" + q + "\\\\" + m + "\0" + t;
    var sep := |p| + 2 + |q|;
    var nul := sep + 2 + |m|;
    forall i | 0 <= i < |p|
      ensures link[i] != '\0'
    {
      assert link[i] == p[i];
    }
    forall i | |p| + 2 <= i < sep
      ensures link[i] != '\\'
    {
      assert link[i] == q[i - |p| - 2];
    }
    forall i | sep + 2 <= i < nul
      ensures link[i] != '\0'
    {
      assert link[i] == m[i - sep - 2];
    }
    SpliceByPositions(link, |p|, sep, nul);
    assert link[..|p|] == p;
    assert link[nul + 1..] == t;
  }

  /** The splice read off the positions of its three markers in the raw path. */
  lemma SpliceByPositions(link: string, begin: nat, sep: nat, nul: nat)
    requires begin + 2 <= sep && sep + 2 <= nul < |link|
    requires link[begin] == '\0' && link[begin + 1] == '\0'
    requires link[sep] == '\\' && link[sep + 1] == '\\' && link[nul] == '\0'
    requires forall i :: 0 <= i < begin ==> link[i] != '\0'
    requires forall i :: begin + 2 <= i < sep ==> link[i] != '\\'
    requires forall i :: sep + 2 <= i < nul ==> link[i] != '\0'
    ensures Splice(link) == link[..begin] + link[nul + 1..]
  {
    FirstPairAt(link, begin);
    FirstSeparatorAt(link, begin, sep);
    assert link[nul..nul + 1] == "\0";
    forall i | sep + 2 <= i < nul
      ensures !OccursAt(link, "\0", i)
    {
      assert link[i..i + 1][0] == link[i];
    }
    IndexOfIsFirst(link, "\0", sep + 2, nul);
    assert SpliceEnd(link, begin) == nul + 1;
  }

  lemma FirstPairAt(link: string, begin: nat)
    requires begin + 2 <= |link| && link[begin] == '\0' && link[begin + 1] == '\0'
    requires forall i :: 0 <= i < begin ==> link[i] != '\0'
    ensures IndexOf(link, "\0\0", 0) == begin
  {
    assert link[begin..begin + 2] == "\0\0";
    forall i | 0 <= i < begin
      ensures !OccursAt(link, "\0\0", i)
    {
      assert link[i..i + 2][0] == link[i];
    }
    IndexOfIsFirst(link, "\0\0", 0, begin);
  }

  lemma FirstSeparatorAt(link: string, begin: nat, sep: nat)
    requires begin + 2 <= sep && sep + 2 <= |link|
    requires link[sep] == '\\' && link[sep + 1] == '\\'
    requires forall i :: begin + 2 <= i < sep ==> link[i] != '\\'
    ensures IndexOf(link, "\\\\", begin + 2) == sep
  {
    assert link[sep..sep + 2] == "\\\\";
    forall i | begin + 2 <= i < sep
      ensures !OccursAt(link, "\\\\", i)
    {
      assert link[i..i + 2][0] == link[i];
    }
    IndexOfIsFirst(link, "\\\\", begin + 2, sep);
  }

  /**
   * Without a "\\\\" after the double null the '\0' search restarts at
   * index 1, so for a prefix free of '\0' only one of the two nulls is
   * dropped (both, with the prefix, when the prefix is empty).
   */
  lemma SpliceWithoutSeparator(p: string, t: string)
    requires forall i :: 0 <= i < |p| ==> p[i] != '\0'
    requires !Contains(t, "\\\\")
    ensures Splice(p + "\0\0" + t) == if p == "" then t else p + "\0" + t
  {
    var link := p + "\0\0" + t;
    var begin := |p|;
    assert link[begin..begin + 2] == "\0\0";
    forall i | 0 <= i < begin
      ensures !OccursAt(link, "\0\0", i)
    {
      assert link[i] == p[i];
    }
    IndexOfIsFirst(link, "\0\0", 0, begin);
    forall i | begin + 2 <= i <= |link|
      ensures !OccursAt(link, "\\\\", i)
    {
      assert link == (p + "\0\0") + t;
      OccursAtShift(p + "\0\0", t, "\\\\", i - begin - 2);
    }
    IndexOfAbsent(link, "\\\\", begin + 2);
    if p == "" {
      assert link[1..2] == "\0";
      IndexOfIsFirst(link, "\0", 1, 1);
      assert SpliceEnd(link, begin) == 2;
      assert link[2..] == t;
    } else {
      forall i | 1 <= i < begin
        ensures !OccursAt(link, "\0", i)
      {
        assert link[i] == p[i];
      }
      assert link[begin..begin + 1] == "\0";
      IndexOfIsFirst(link, "\0", 1, begin);
      assert SpliceEnd(link, begin) == begin + 1;
      assert link[..begin] == p;
      assert link[begin + 1..] == "\0" + t;
    }
  }

  /**
   * The byte-parsing half of GetShortcutTarget: the extension check comes
   * before any byte is read; the raw base path is then spliced.
   */
  function DecodeTarget(file: string, b: seq<byte>): (r: Result<string, LinkError>)
    ensures !HasLnkSuffix(file) ==> r == Failure(NotALinkFile)
    ensures r.Success? <==> HasLnkSuffix(file) && ReadBasePath(b).Success?
    ensures r.Success? ==> r.value == Splice(ReadBasePath(b).value)
    ensures HasLnkSuffix(file) && ReadBasePath(b).Failure? ==> r == Failure(ReadBasePath(b).error)
  {
    ExtensionIsLnk(file);
    if Lower(Extension(file)) != ".lnk" then Failure(NotALinkFile)
    else
      var raw :- ReadBasePath(b);
      Success(Splice(raw))
  }
}
