/** The fixed-disk footer of the Virtual Hard Disk format that
    `add_vhd_footer` appends to a raw image so that Windows can attach it, and
    `remove_vhd_footer`, which strips it again. Layout and checksum follow the
    "Hard Disk Footer Format" section of Microsoft's Virtual Hard Disk Image
    Format Specification. */
module VhdFooter {
  import opened Options
  import opened BigEndian
  import opened VhdGeometry

  type Image = seq<byte>

  const FooterSize: nat := 512

  /** "conectix" */
  const Cookie: seq<byte> := [0x63, 0x6f, 0x6e, 0x65, 0x63, 0x74, 0x69, 0x78]
  /** Creator application "pim\0"; removal keys on this field alone. */
  const CreatorTag: seq<byte> := [0x70, 0x69, 0x6d, 0x00]
  const Uid: seq<byte> :=
    [0x80, 0x5d, 0xa5, 0x3e, 0xa2, 0x25, 0x11, 0xed, 0xa8, 0xfc, 0x02, 0x42, 0xac, 0x12, 0x00, 0x02]
  /** Disk type 2: fixed hard disk. */
  const FixedDisk: nat := 2
  /** Largest size `struct.pack(">Q")` accepts, plus one. */
  const SizeLimit: nat := 0x1_0000_0000_0000_0000

  function Zeros(n: nat): (r: seq<byte>)
    ensures |r| == n && forall i :: 0 <= i < n ==> r[i] == 0
  {
    seq(n, _ => 0)
  }

  /** Bytes 56..59: cylinders high and low byte (`(c >> 8) & 0xff`,
      `c & 0xff`), heads, sectors per track. `bytes()` only accepts heads and
      sectors below 256. */
  function GeometryBytes(g: Chs): (r: seq<byte>)
    requires g.heads < 256 && g.sectors < 256
    ensures |r| == 4
  {
    [(g.cylinders / 256) % 256, g.cylinders % 256, g.heads, g.sectors]
  }

  /** Bytes 0..39: cookie, features, version, data offset (all ones for a
      fixed disk), time stamp, creator application, creator version and
      creator host OS. */
  function Head(): (r: seq<byte>)
    ensures |r| == 40
  {
    Cookie + [0, 0, 0, 0] + [0, 1, 0, 0] + [0xff, 0xff, 0xff, 0xff, 0xff, 0xff, 0xff, 0xff]
    + [0, 0, 0, 0] + CreatorTag + [0, 1, 0, 3] + [0, 0, 0, 0]
  }

  /** Bytes 40..63: original size, current size, geometry, disk type. */
  function Middle(size: nat, g: Chs): (r: seq<byte>)
    requires size < SizeLimit && g.heads < 256 && g.sectors < 256
    ensures |r| == 24
  {
    Pack8(size) + Pack8(size) + GeometryBytes(g) + [0, 0, 0, 2]
  }

  /** Bytes 68..511: the unique id, then zero padding. */
  function UidAndPadding(): (r: seq<byte>)
    ensures |r| == 444
  {
    Uid + [0] + Zeros(427)
  }

  /** The footer as the list `ftr` stands before the checksum is filled in:
      bytes 64..67 are still zero. */
  function Unsummed(size: nat, g: Chs): (r: seq<byte>)
    requires size < SizeLimit && g.heads < 256 && g.sectors < 256
    ensures |r| == FooterSize
  {
    Head() + Middle(size, g) + [0, 0, 0, 0] + UidAndPadding()
  }

  function ByteSum(s: seq<byte>): nat {
    if s == [] then 0 else ByteSum(s[..|s| - 1]) + s[|s| - 1]
  }

  lemma {:induction false} ByteSumBound(s: seq<byte>)
    ensures ByteSum(s) <= 255 * |s|
  {
    if s != [] {
      ByteSumBound(s[..|s| - 1]);
    }
  }

  /** The checksum of a 512-byte footer whose checksum field is zero: Python's
      `sum ^ 0xffffffff`, which is the ones' complement of the byte sum
      because that sum stays far below 2^32. */
  function Checksum(unsummed: seq<byte>): (c: nat)
    requires |unsummed| == FooterSize
    ensures c == 0xFFFF_FFFF - ByteSum(unsummed)
    ensures c < 0x1_0000_0000
  {
    ByteSumBound(unsummed);
    Pow2Of32();
    XorAllOnes(ByteSum(unsummed), 32);
    BitXor(ByteSum(unsummed), 0xFFFF_FFFF)
  }

  /** The footer written for an image of `size` bytes with geometry `g`: the
      checksum replaces bytes 64..67. */
  function Footer(size: nat, g: Chs): (r: seq<byte>)
    requires size < SizeLimit && g.heads < 256 && g.sectors < 256
    ensures |r| == FooterSize
  {
    Head() + Middle(size, g) + Pack4(Checksum(Unsummed(size, g))) + UidAndPadding()
  }

  /** The footer with its checksum field zeroed again, as a reader sums it. */
  function ZeroChecksumField(f: seq<byte>): (r: seq<byte>)
    requires |f| == FooterSize
    ensures |r| == FooterSize
  {
    f[..64] + [0, 0, 0, 0] + f[68..]
  }

  /** Slicing a footer assembled from its four parts gives the parts back. */
  lemma PartsSlices(h: seq<byte>, m: seq<byte>, p: seq<byte>, t: seq<byte>)
    requires |h| == 40 && |m| == 24 && |p| == 4 && |t| == 444
    ensures var f := h + m + p + t;
      && f[..40] == h && f[40..64] == m && f[64..68] == p && f[68..] == t
      && ZeroChecksumField(f) == h + m + [0, 0, 0, 0] + t
  {
    var f := h + m + p + t;
    assert f[..64] == h + m;
    assert f[68..] == t;
  }

  lemma FooterSlices(size: nat, g: Chs)
    requires size < SizeLimit && g.heads < 256 && g.sectors < 256
    ensures var f := Footer(size, g);
      && f[..40] == Head()
      && f[40..64] == Middle(size, g)
      && f[64..68] == Pack4(Checksum(Unsummed(size, g)))
      && f[68..] == UidAndPadding()
      && ZeroChecksumField(f) == Unsummed(size, g)
  {
    PartsSlices(Head(), Middle(size, g), Pack4(Checksum(Unsummed(size, g))), UidAndPadding());
  }

  lemma HeadLayout()
    ensures var h := Head();
      && h[0..8] == Cookie
      && h[8..12] == [0, 0, 0, 0]
      && h[12..16] == [0, 1, 0, 0]
      && h[16..24] == [0xff, 0xff, 0xff, 0xff, 0xff, 0xff, 0xff, 0xff]
      && h[24..28] == [0, 0, 0, 0]
      && h[28..32] == CreatorTag
      && h[32..36] == [0, 1, 0, 3]
      && h[36..40] == [0, 0, 0, 0]
  {
  }

  lemma MiddleLayout(size: nat, g: Chs)
    requires size < SizeLimit && g.heads < 256 && g.sectors < 256
    ensures var m := Middle(size, g);
      && Unpack(m[0..8]) == size
      && Unpack(m[8..16]) == size
      && m[16..20] == [(g.cylinders / 256) % 256, g.cylinders % 256, g.heads, g.sectors]
      && m[20..24] == [0, 0, 0, 2]
  {
    var m := Middle(size, g);
    assert m[0..8] == Pack8(size);
    assert m[8..16] == Pack8(size);
  }

  /** A field inside a part of the footer is the same field of the footer. */
  lemma Nested(f: seq<byte>, a: nat, b: nat, lo: nat, hi: nat)
    requires a <= lo <= hi <= b <= |f|
    ensures f[lo..hi] == f[a..b][lo - a..hi - a]
  {
    var outer, inner := f[lo..hi], f[a..b][lo - a..hi - a];
    assert |outer| == |inner|;
    forall i | 0 <= i < |outer|
      ensures outer[i] == inner[i]
    {
      assert outer[i] == f[lo + i];
    }
  }

  lemma HeadFieldsOf(f: seq<byte>)
    requires |f| == FooterSize && f[..40] == Head()
    ensures
      && f[0..8] == Cookie
      && f[8..12] == [0, 0, 0, 0]
      && f[12..16] == [0, 1, 0, 0]
      && f[16..24] == [0xff, 0xff, 0xff, 0xff, 0xff, 0xff, 0xff, 0xff]
      && f[24..28] == [0, 0, 0, 0]
      && f[28..32] == CreatorTag
      && f[32..36] == [0, 1, 0, 3]
      && f[36..40] == [0, 0, 0, 0]
  {
    HeadLayout();
    Nested(f, 0, 40, 0, 8);
    Nested(f, 0, 40, 8, 12);
    Nested(f, 0, 40, 12, 16);
    Nested(f, 0, 40, 16, 24);
    Nested(f, 0, 40, 24, 28);
    Nested(f, 0, 40, 28, 32);
    Nested(f, 0, 40, 32, 36);
    Nested(f, 0, 40, 36, 40);
  }

  lemma MiddleFieldsOf(f: seq<byte>, size: nat, g: Chs)
    requires size < SizeLimit && g.heads < 256 && g.sectors < 256
    requires |f| == FooterSize && f[40..64] == Middle(size, g)
    ensures
      && Unpack(f[40..48]) == size
      && Unpack(f[48..56]) == size
      && f[56..60] == [(g.cylinders / 256) % 256, g.cylinders % 256, g.heads, g.sectors]
      && f[60..64] == [0, 0, 0, 2]
  {
    MiddleLayout(size, g);
    Nested(f, 40, 64, 40, 48);
    Nested(f, 40, 64, 48, 56);
    Nested(f, 40, 64, 56, 60);
    Nested(f, 40, 64, 60, 64);
  }

  lemma TailFieldsOf(f: seq<byte>)
    requires |f| == FooterSize && f[68..] == UidAndPadding()
    ensures f[68..84] == Uid && f[84..] == Zeros(428)
  {
    var t := f[68..];
    assert f[68..84] == t[0..16];
    assert f[84..] == t[16..];
  }

  lemma ChecksumFieldOf(f: seq<byte>, u: seq<byte>)
    requires |f| == FooterSize && |u| == FooterSize
    requires f[64..68] == Pack4(Checksum(u)) && ZeroChecksumField(f) == u
    ensures Unpack(f[64..68]) == 0xFFFF_FFFF - ByteSum(ZeroChecksumField(f))
  {
  }

  lemma FooterHeadFields(size: nat, g: Chs)
    requires size < SizeLimit && g.heads < 256 && g.sectors < 256
    ensures var f := Footer(size, g);
      && f[0..8] == Cookie
      && f[8..12] == [0, 0, 0, 0]
      && f[12..16] == [0, 1, 0, 0]
      && f[16..24] == [0xff, 0xff, 0xff, 0xff, 0xff, 0xff, 0xff, 0xff]
      && f[24..28] == [0, 0, 0, 0]
      && f[28..32] == CreatorTag
      && f[32..36] == [0, 1, 0, 3]
      && f[36..40] == [0, 0, 0, 0]
  {
    FooterSlices(size, g);
    HeadFieldsOf(Footer(size, g));
  }

  lemma FooterMiddleFields(size: nat, g: Chs)
    requires size < SizeLimit && g.heads < 256 && g.sectors < 256
    ensures var f := Footer(size, g);
      && Unpack(f[40..48]) == size
      && Unpack(f[48..56]) == size
      && f[56..60] == [(g.cylinders / 256) % 256, g.cylinders % 256, g.heads, g.sectors]
      && f[60..64] == [0, 0, 0, 2]
  {
    FooterSlices(size, g);
    MiddleFieldsOf(Footer(size, g), size, g);
  }

  lemma FooterTailFields(size: nat, g: Chs)
    requires size < SizeLimit && g.heads < 256 && g.sectors < 256
    ensures var f := Footer(size, g);
      && Unpack(f[64..68]) == 0xFFFF_FFFF - ByteSum(ZeroChecksumField(f))
      && f[68..84] == Uid
      && f[84..] == Zeros(428)
  {
    FooterSlices(size, g);
    TailFieldsOf(Footer(size, g));
    ChecksumFieldOf(Footer(size, g), Unsummed(size, g));
  }

  /** The byte-level layout of the footer, field by field, and its checksum:
      bytes 64..67 hold, big-endian, the ones' complement of the sum of the
      footer's bytes taken with that field zero. */
  lemma FooterLayout(size: nat, g: Chs)
    requires size < SizeLimit && g.heads < 256 && g.sectors < 256
    ensures var f := Footer(size, g);
      && f[0..8] == Cookie
      && f[8..12] == [0, 0, 0, 0]
      && f[12..16] == [0, 1, 0, 0]
      && f[16..24] == [0xff, 0xff, 0xff, 0xff, 0xff, 0xff, 0xff, 0xff]
      && f[24..28] == [0, 0, 0, 0]
      && f[28..32] == CreatorTag
      && f[32..36] == [0, 1, 0, 3]
      && f[36..40] == [0, 0, 0, 0]
      && Unpack(f[40..48]) == size
      && Unpack(f[48..56]) == size
      && f[56..60] == [(g.cylinders / 256) % 256, g.cylinders % 256, g.heads, g.sectors]
      && f[60..64] == [0, 0, 0, 2]
      && Unpack(f[64..68]) == 0xFFFF_FFFF - ByteSum(ZeroChecksumField(f))
      && f[68..84] == Uid
      && f[84..] == Zeros(428)
  {
    FooterHeadFields(size, g);
    FooterMiddleFields(size, g);
    FooterTailFields(size, g);
  }

  /** The fields a reader of the footer recovers. */
  datatype FooterFields = FooterFields(originalSize: nat, currentSize: nat, geometry: Chs, diskType: nat)

  /** Reads a footer the way a host checking it would: the cookie and the
      checksum must be right, then the fields are decoded. */
  function Decode(f: seq<byte>): (r: Option<FooterFields>)
    ensures r.Some? ==> |f| == FooterSize && f[0..8] == Cookie
  {
    if |f| != FooterSize || f[0..8] != Cookie then None
    else if Unpack(f[64..68]) != 0xFFFF_FFFF - ByteSum(ZeroChecksumField(f)) then None
    else Some(FooterFields(Unpack(f[40..48]), Unpack(f[48..56]),
                           Chs(f[56] as int * 256 + f[57] as int, f[58], f[59]), Unpack(f[60..64])))
  }

  /** Decoding a freshly built footer gives back the size it was built for,
      twice, the geometry, and the fixed-disk type: in particular the stored
      checksum is the one a reader recomputes. */
  lemma DecodeFooter(size: nat, g: Chs)
    requires size < SizeLimit && g.heads < 256 && g.sectors < 256 && g.cylinders < 65536
    ensures Decode(Footer(size, g)) == Some(FooterFields(size, size, g, FixedDisk))
  {
    FooterHeadFields(size, g);
    FooterMiddleFields(size, g);
    FooterTailFields(size, g);
    DecodeFields(Footer(size, g), size, g);
  }

  /** Any 512 bytes with the right cookie, checksum and field contents decode
      to those fields. */
  lemma DecodeFields(f: seq<byte>, size: nat, g: Chs)
    requires |f| == FooterSize && f[0..8] == Cookie
    requires Unpack(f[64..68]) == 0xFFFF_FFFF - ByteSum(ZeroChecksumField(f))
    requires Unpack(f[40..48]) == size && Unpack(f[48..56]) == size
    requires g.cylinders < 65536
    requires f[56..60] == [(g.cylinders / 256) % 256, g.cylinders % 256, g.heads, g.sectors]
    requires f[60..64] == [0, 0, 0, 2]
    ensures Decode(f) == Some(FooterFields(size, size, g, FixedDisk))
  {
    GeometryField(f, g);
    UnpackTwo();
  }

  /** Bytes 56..59 decode to the geometry they were written from. */
  lemma GeometryField(f: seq<byte>, g: Chs)
    requires |f| == FooterSize && g.cylinders < 65536
    requires f[56..60] == [(g.cylinders / 256) % 256, g.cylinders % 256, g.heads, g.sectors]
    ensures Chs(f[56] as int * 256 + f[57] as int, f[58], f[59]) == g
  {
    var geo := f[56..60];
    assert f[56] == geo[0] && f[57] == geo[1] && f[58] == geo[2] && f[59] == geo[3];
    CylinderBytes(g.cylinders);
  }

  lemma CylinderBytes(c: nat)
    requires c < 65536
    ensures ((c / 256) % 256) * 256 + c % 256 == c
  {
    assert c / 256 < 256;
  }

  lemma UnpackTwo()
    ensures Unpack([0, 0, 0, 2]) == 2
  {
    assert [0, 0, 0, 2][..3] == [0, 0, 0];
    assert [0, 0, 0][..2] == [0, 0];
    assert [0, 0][..1] == [0];
    assert [0][..0] == [];
  }

  // ---------------------------------------------------------------------
  // remove_vhd_footer / add_vhd_footer

  /** Whether the last 512 bytes carry the creator tag at bytes 28..31. */
  predicate EndsInFooter(img: Image)
    requires |img| >= FooterSize
  {
    var start := |img| - FooterSize;
    img[start + 28..start + 32] == CreatorTag
  }

  /** `remove_vhd_footer`: `None` when the file is shorter than 512 bytes (the
      seek to 512 bytes before the end raises), otherwise the file with the
      last 512 bytes dropped exactly when they carry the creator tag. */
  function RemoveFooter(img: Image): (r: Option<Image>)
    ensures r.None? <==> |img| < FooterSize
    ensures r.Some? ==> r.value <= img
    ensures r.Some? ==> |img| - |r.value| == if EndsInFooter(img) then FooterSize else 0
  {
    if |img| < FooterSize then None
    else if EndsInFooter(img) then Some(img[..|img| - FooterSize])
    else Some(img)
  }

  /** How `add_vhd_footer` ends. */
  datatype AddOutcome =
    | Appended(image: Image)     // the footer was written
    | SeekFailed                 // the file was shorter than 512 bytes
    | Hangs                      // the geometry loop never terminates
    | ByteRange(stripped: Image) // `bytes()` rejected heads or sectors above 255, after any old footer was removed

  /** Heads and sectors each fit the one byte `bytes()` gives them. */
  predicate ByteSized(g: Chs) {
    g.heads < 256 && g.sectors < 256
  }

  /** `add_vhd_footer`: strip any footer, derive the geometry from the
      remaining size, and append a fresh footer. */
  function AddFooter(img: Image): (r: AddOutcome)
    requires |img| < SizeLimit
    ensures r.SeekFailed? <==> |img| < FooterSize
    ensures r.Hangs? <==> |img| >= FooterSize && Geometry(|RemoveFooter(img).value|).None?
    ensures r.ByteRange? <==>
      && |img| >= FooterSize
      && Geometry(|RemoveFooter(img).value|).Some?
      && !ByteSized(Geometry(|RemoveFooter(img).value|).value)
    ensures r.ByteRange? ==> r.stripped == RemoveFooter(img).value
    ensures r.Appended? <==>
      && |img| >= FooterSize
      && Geometry(|RemoveFooter(img).value|).Some?
      && ByteSized(Geometry(|RemoveFooter(img).value|).value)
    ensures r.Appended? ==>
      && RemoveFooter(img).Some?
      && var base := RemoveFooter(img).value;
      && |r.image| == |base| + FooterSize
      && r.image[..|base|] == base
      && r.image[|base|..] == Footer(|base|, Geometry(|base|).value)
      && EndsInFooter(r.image)
      && Decode(r.image[|base|..]).Some?
      && var d := Decode(r.image[|base|..]).value;
      && d.originalSize == d.currentSize == |base|
      && d.diskType == FixedDisk
      && d.geometry == Geometry(|base|).value
      && Volume(d.geometry) == |base| / 512
  {
    match RemoveFooter(img)
    case None => SeekFailed
    case Some(base) =>
      match Geometry(|base|)
      case None => Hangs
      case Some(g) =>
        if !ByteSized(g) then ByteRange(base)
        else
          AppendFooterFacts(base, g);
          DecodeFooter(|base|, g);
          Appended(base + Footer(|base|, g))
  }

  lemma AppendFooterFacts(base: Image, g: Chs)
    requires |base| < SizeLimit && g.heads < 256 && g.sectors < 256
    ensures var out := base + Footer(|base|, g);
      && |out| == |base| + FooterSize
      && out[..|base|] == base
      && out[|base|..] == Footer(|base|, g)
      && EndsInFooter(out)
  {
    var f := Footer(|base|, g);
    FooterHeadFields(|base|, g);
    var out := base + f;
    assert out[|base|..] == f;
    assert out[|base| + 28..|base| + 32] == f[28..32];
  }

  /** Removing the footer that was just added leaves what removal would have
      left before adding. */
  lemma RemoveAfterAdd(img: Image)
    requires |img| < SizeLimit && AddFooter(img).Appended?
    ensures RemoveFooter(AddFooter(img).image) == RemoveFooter(img)
  {
    var out := AddFooter(img).image;
    var base := RemoveFooter(img).value;
    assert out[..|out| - FooterSize] == base;
  }

  /** Strip after append is the identity on an image that did not already end
      in a footer. */
  lemma StripAppendRoundTrip(img: Image)
    requires FooterSize <= |img| < SizeLimit && !EndsInFooter(img)
    requires AddFooter(img).Appended?
    ensures RemoveFooter(AddFooter(img).image) == Some(img)
  {
    RemoveAfterAdd(img);
  }

  /** Appending twice writes the same file as appending once. */
  lemma AddIdempotent(img: Image)
    requires |img| + FooterSize < SizeLimit && AddFooter(img).Appended?
    ensures AddFooter(AddFooter(img).image) == AddFooter(img)
  {
    RemoveAfterAdd(img);
  }

  /** Every image of at least one footer and under 16 MiB gets its footer:
      the stripped image has fewer than 32768 sectors, so the loop does not
      run and the geometry is (sectors, 1, 1). */
  lemma SmallImageAppended(img: Image)
    requires FooterSize <= |img| < CylinderLimit * 512
    ensures AddFooter(img).Appended?
    ensures var base := RemoveFooter(img).value;
      Decode(AddFooter(img).image[|base|..]).value.geometry == Chs(|base| / 512, 1, 1)
  {
  }

  /** A 256 GiB image without a footer gets no footer: `bytes()` rejects its
      256 heads and the file is left as it was. */
  lemma HeadsOverflowRejected(img: Image)
    requires |img| == 0x40_0000_0000 && !EndsInFooter(img)
    ensures AddFooter(img) == ByteRange(img)
  {
    HeadsOverflowAt256GiB();
  }

  /** A 512 GiB image without a footer makes `add_vhd_footer` loop forever. */
  lemma AddHangsAt512GiB(img: Image)
    requires |img| == 0x80_0000_0000 && !EndsInFooter(img)
    ensures AddFooter(img) == Hangs
  {
    LoopHangsAt512GiB();
  }
}
