/**
 * An encoder for the byte layout the decoder reads, used as the decoder's
 * partner: whatever target bytes are placed where ReadBasePath looks, with
 * any flags, ID list, LinkInfo fields, padding and trailing data around
 * them, are exactly what it returns.
 */
module LinkLayout {
  import opened Wrappers
  import opened Text
  import opened ShellLink

  /** `width` little-endian bytes of n, least significant first. */
  function Encode(n: nat, width: nat): (bs: seq<byte>)
    ensures |bs| == width
  {
    if width == 0 then [] else [(n % 256) as byte] + Encode(n / 256, width - 1)
  }

  lemma {:induction false} DecodeEncode(n: nat, width: nat)
    requires n < Pow256(width)
    ensures LittleEndian(Encode(n, width)) == n
  {
    if width > 0 {
      var bs := Encode(n, width);
      var q, low := n / 256, n % 256;
      assert n == 256 * q + low;
      assert q < Pow256(width - 1) by {
        assert 256 * q < 256 * Pow256(width - 1);
      }
      assert bs[1..] == Encode(q, width - 1);
      DecodeEncode(q, width - 1);
      assert bs[0] as nat == low;
    }
  }

  /**
   * The parts of a shortcut file as the decoder sees them: the first 0x14
   * bytes, the LinkFlags, the rest of the 0x4C-byte header and the ID list
   * (present only when bit 0 of the flags is set), the LinkInfo fields the
   * decoder skips, the bytes between them and the base path, the base path
   * itself and whatever follows it.
   */
  datatype Layout = Layout(
    header: seq<byte>, flags: nat, headerRest: seq<byte>, idList: seq<byte>,
    infoFields: seq<byte>, gap: seq<byte>, target: seq<byte>, trailer: seq<byte>)

  predicate WellSized(l: Layout) {
    |l.header| == 0x14 && l.flags < 0x1_0000_0000 && |l.headerRest| == 0x34 &&
    |l.idList| < 0x1_0000 && |l.infoFields| == 12 &&
    0x14 + |l.gap| + |l.target| + 2 < 0x1_0000_0000 && |l.target| < 0x8000_0000
  }

  function BasePathOffset(l: Layout): nat {
    0x14 + |l.gap|
  }

  function LinkInfoSize(l: Layout): nat {
    BasePathOffset(l) + |l.target| + 2
  }

  function LinkInfoBytes(l: Layout): seq<byte>
    requires WellSized(l)
  {
    Encode(LinkInfoSize(l), 4) + l.infoFields + Encode(BasePathOffset(l), 4) + l.gap + l.target + l.trailer
  }

  function Prologue(l: Layout): (bs: seq<byte>)
    requires WellSized(l)
    ensures |bs| == if l.flags % 2 == 1 then 0x4E + |l.idList| else 0x18
  {
    l.header + Encode(l.flags, 4) +
    (if l.flags % 2 == 1 then l.headerRest + Encode(|l.idList|, 2) + l.idList else [])
  }

  function Build(l: Layout): seq<byte>
    requires WellSized(l)
  {
    Prologue(l) + LinkInfoBytes(l)
  }

  lemma Pow256Values()
    ensures Pow256(2) == 0x1_0000 && Pow256(4) == 0x1_0000_0000
  {
    assert Pow256(1) == 256;
    assert Pow256(3) == 0x100_0000;
  }

  /** The decoder finds the LinkInfo structure where the layout put it. */
  lemma {:induction false} StartOfBuilt(l: Layout)
    requires WellSized(l)
    ensures LinkInfoStart(Build(l)) == Success(|Prologue(l)|)
  {
    var b := Build(l);
    Pow256Values();
    assert b[0x14..0x18] == Encode(l.flags, 4);
    DecodeEncode(l.flags, 4);
    var flags := ReadU32LE(b, 0x14);
    assert flags == Success(l.flags);
    if l.flags % 2 == 1 {
      assert b[0x4C..0x4E] == Encode(|l.idList|, 2);
      DecodeEncode(|l.idList|, 2);
    }
  }

  /** The decoder reads back the size and base-path offset the layout stored. */
  lemma {:induction false} HeaderOfBuilt(l: Layout)
    requires WellSized(l)
    ensures ReadLinkInfoHeader(Build(l)) ==
      Success(LinkInfoHeader(|Prologue(l)|, LinkInfoSize(l), BasePathOffset(l)))
  {
    var b := Build(l);
    var s := |Prologue(l)|;
    StartOfBuilt(l);
    Pow256Values();
    assert b[s..] == LinkInfoBytes(l);
    assert b[s..s + 4] == Encode(LinkInfoSize(l), 4);
    assert b[s + 0x10..s + 0x14] == Encode(BasePathOffset(l), 4);
    DecodeEncode(LinkInfoSize(l), 4);
    DecodeEncode(BasePathOffset(l), 4);
  }

  /** Where the layout puts the base path in the built file. */
  lemma TargetOfBuilt(l: Layout)
    requires WellSized(l)
    ensures var p := |Prologue(l)| + BasePathOffset(l);
      p + |l.target| <= |Build(l)| && Build(l)[p..p + |l.target|] == l.target
  {
    var b := Build(l);
    var s := |Prologue(l)|;
    var p := s + BasePathOffset(l);
    assert b[s..] == LinkInfoBytes(l);
    assert b[p..p + |l.target|] == b[s..][BasePathOffset(l)..BasePathOffset(l) + |l.target|];
  }

  /** Round trip: the raw base path read from a built file is the stored target, byte for character. */
  lemma {:induction false} ReadBasePathOfBuilt(l: Layout)
    requires WellSized(l)
    ensures ReadBasePath(Build(l)) == Success(Chars(l.target))
  {
    var b := Build(l);
    var p := |Prologue(l)| + BasePathOffset(l);
    HeaderOfBuilt(l);
    TargetOfBuilt(l);
    ReadBasePathWithin(b, LinkInfoHeader(|Prologue(l)|, LinkInfoSize(l), BasePathOffset(l)), l.target);
  }

  /**
   * A target whose bytes hold no zero comes back unchanged from DecodeTarget,
   * with or without an ID list.
   */
  lemma {:induction false} DecodeLiteralTarget(file: string, l: Layout)
    requires WellSized(l) && HasLnkSuffix(file)
    requires forall i :: 0 <= i < |l.target| ==> l.target[i] != 0
    ensures DecodeTarget(file, Build(l)) == Success(Chars(l.target))
  {
    ReadBasePathOfBuilt(l);
    var s := Chars(l.target);
    forall i | 0 <= i < |s|
      ensures s[i] != '\0'
    {
      assert s[i] == ByteChar(l.target[i]);
    }
    forall i | 0 <= i <= |s|
      ensures !OccursAt(s, "\0\0", i)
    {
      if i + 2 <= |s| {
        assert s[i..i + 2][0] == s[i];
      }
    }
    IndexOfAbsent(s, "\0\0", 0);
  }
}
