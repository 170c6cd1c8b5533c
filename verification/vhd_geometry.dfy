/** The cylinder/head/sector heuristic of `add_vhd_footer`: starting from one
    head and one sector per track, it absorbs the smallest remaining divisor of
    the cylinder count into the heads, then the sectors, then the heads again,
    until fewer than 32768 cylinders remain. */
module VhdGeometry {
  import opened Options

  datatype Chs = Chs(cylinders: nat, heads: nat, sectors: nat)

  /** The loop runs while the cylinder count is at least this. */
  const CylinderLimit: nat := 32768

  /** Number of 512-byte sectors a geometry describes, in units of sectors. */
  function Volume(g: Chs): nat {
    g.cylinders * g.heads * g.sectors
  }

  predicate Divides(k: nat, c: nat)
    requires k >= 1
  {
    c % k == 0
  }

  /** No trial divisor the loop has already passed divides the cylinder count. */
  predicate NoFactorBelow(c: nat, d: nat) {
    forall k :: 2 <= k < d ==> !Divides(k, c)
  }

  lemma DivisorBelowCylinders(c: nat, d: nat)
    requires d >= 2 && c >= 2 && NoFactorBelow(c, d) && c % d != 0
    ensures d < c
  {
    if d >= c {
      assert Divides(c, c);
    }
  }

  lemma MultipleDivisible(x: nat, k: nat, y: nat)
    requires k >= 1 && x == k * y
    ensures x % k == 0
  {
    var q := x / k;
    var r := x % k;
    assert x == k * q + r;
    assert k * (y - q) == r;
    if y - q >= 1 {
      assert false;
    } else if y - q <= -1 {
      assert false;
    }
  }

  lemma QuotientKeepsNoFactor(c: nat, d: nat)
    requires d >= 2 && c % d == 0 && NoFactorBelow(c, d)
    ensures NoFactorBelow(c / d, d)
  {
    var q := c / d;
    assert c == q * d;
    forall k | 2 <= k < d
      ensures !Divides(k, q)
    {
      if Divides(k, q) {
        var m := q / k;
        assert q == k * m;
        assert c == k * (m * d);
        MultipleDivisible(c, k, m * d);
        assert Divides(k, c);
      }
    }
  }

  lemma QuotientSmaller(c: nat, d: nat)
    requires d >= 2 && c >= 1
    ensures c / d < c
  {
  }

  lemma ScaleAtLeast(x: nat, d: nat)
    requires d >= 2
    ensures x * d >= x
  {
  }

  /** One iteration in which the trial divisor `d` divides the cylinder count:
      the factor moves into the heads (while below 16), else into the sectors
      (while below 128), else into the heads (while at most 128); `None` when
      none of the three branches fires. */
  function AbsorbOnce(g: Chs, d: nat): (r: Option<Chs>)
    requires d >= 2 && g.cylinders % d == 0
    ensures r.Some? ==> Volume(r.value) == Volume(g)
    ensures r.Some? ==> r.value.cylinders == g.cylinders / d
    ensures r.Some? ==> r.value.heads >= g.heads && r.value.sectors >= g.sectors
    ensures r.None? <==> g.heads >= 16 && g.sectors >= 128 && g.heads > 128
  {
    var q := g.cylinders / d;
    assert g.cylinders == q * d;
    if g.heads < 16 then
      assert q * (g.heads * d) * g.sectors == (q * d) * g.heads * g.sectors;
      ScaleAtLeast(g.heads, d);
      Some(Chs(q, g.heads * d, g.sectors))
    else if g.sectors < 128 then
      assert q * g.heads * (g.sectors * d) == (q * d) * g.heads * g.sectors;
      ScaleAtLeast(g.sectors, d);
      Some(Chs(q, g.heads, g.sectors * d))
    else if g.heads <= 128 then
      assert q * (g.heads * d) * g.sectors == (q * d) * g.heads * g.sectors;
      ScaleAtLeast(g.heads, d);
      Some(Chs(q, g.heads * d, g.sectors))
    else None
  }

  /** The loop from state `g` with trial divisor `d`. `None` stands for the
      case where the divisor divides but no branch fires, so that the Python
      loop spins forever. */
  function Absorb(g: Chs, d: nat): (r: Option<Chs>)
    requires d >= 2 && NoFactorBelow(g.cylinders, d)
    ensures r.Some? ==> r.value.cylinders < CylinderLimit
    ensures r.Some? ==> Volume(r.value) == Volume(g)
    ensures r.Some? ==> r.value.heads >= g.heads && r.value.sectors >= g.sectors
    ensures g.cylinders < CylinderLimit ==> r == Some(g)
    decreases g.cylinders, g.cylinders - d
  {
    if g.cylinders < CylinderLimit then Some(g)
    else if g.cylinders % d == 0 then
      match AbsorbOnce(g, d)
      case None => None
      case Some(next) =>
        QuotientKeepsNoFactor(g.cylinders, d);
        QuotientSmaller(g.cylinders, d);
        Absorb(next, d)
    else
      DivisorBelowCylinders(g.cylinders, d);
      Absorb(g, d + 1)
  }

  /** Geometry chosen for an image of `size` bytes, or `None` if the loop
      never ends. */
  function Geometry(size: nat): (r: Option<Chs>)
    ensures r.Some? ==> Volume(r.value) == size / 512
    ensures r.Some? ==> r.value.cylinders < CylinderLimit
    ensures r.Some? ==> r.value.heads >= 1 && r.value.sectors >= 1
  {
    Absorb(Chs(size / 512, 1, 1), 2)
  }

  /** The while loop itself, as a method. Where Python would spin forever this
      returns `None` instead; otherwise it returns the geometry, whose volume
      is the image size in sectors and whose cylinder count fits the loop's
      bound. */
  method ChsLoop(size: nat) returns (r: Option<Chs>)
    ensures r == Geometry(size)
    ensures r.Some? ==> r.value.cylinders * r.value.heads * r.value.sectors == size / 512
    ensures r.Some? ==> r.value.cylinders < 32768
  {
    var sectors: nat := 1;
    var cylinders: nat := size / 512;
    var heads: nat := 1;
    var divisor: nat := 2;
    while cylinders >= 32768
      invariant divisor >= 2 && NoFactorBelow(cylinders, divisor)
      invariant Absorb(Chs(cylinders, heads, sectors), divisor) == Geometry(size)
      invariant Volume(Chs(cylinders, heads, sectors)) == size / 512
      decreases cylinders, cylinders - divisor
    {
      if cylinders % divisor == 0 {
        ghost var next := AbsorbOnce(Chs(cylinders, heads, sectors), divisor);
        QuotientKeepsNoFactor(cylinders, divisor);
        QuotientSmaller(cylinders, divisor);
        if heads < 16 {
          heads := heads * divisor;
          cylinders := cylinders / divisor;
        } else if sectors < 128 {
          sectors := sectors * divisor;
          cylinders := cylinders / divisor;
        } else if heads <= 128 {
          heads := heads * divisor;
          cylinders := cylinders / divisor;
        } else {
          return None;
        }
        assert next == Some(Chs(cylinders, heads, sectors));
      } else {
        DivisorBelowCylinders(cylinders, divisor);
        divisor := divisor + 1;
      }
    }
    r := Some(Chs(cylinders, heads, sectors));
  }

  /** An image of 256 GiB (2^38 bytes) ends the loop with 256 heads, one more
      than a byte can hold. */
  lemma HeadsOverflowAt256GiB()
    ensures Geometry(0x40_0000_0000) == Some(Chs(16384, 256, 128))
  {
    assert Absorb(Chs(536870912, 1, 1), 2) == Absorb(Chs(268435456, 2, 1), 2);
    assert Absorb(Chs(268435456, 2, 1), 2) == Absorb(Chs(134217728, 4, 1), 2);
    assert Absorb(Chs(134217728, 4, 1), 2) == Absorb(Chs(67108864, 8, 1), 2);
    assert Absorb(Chs(67108864, 8, 1), 2) == Absorb(Chs(33554432, 16, 1), 2);
    assert Absorb(Chs(33554432, 16, 1), 2) == Absorb(Chs(16777216, 16, 2), 2);
    assert Absorb(Chs(16777216, 16, 2), 2) == Absorb(Chs(8388608, 16, 4), 2);
    assert Absorb(Chs(8388608, 16, 4), 2) == Absorb(Chs(4194304, 16, 8), 2);
    assert Absorb(Chs(4194304, 16, 8), 2) == Absorb(Chs(2097152, 16, 16), 2);
    assert Absorb(Chs(2097152, 16, 16), 2) == Absorb(Chs(1048576, 16, 32), 2);
    assert Absorb(Chs(1048576, 16, 32), 2) == Absorb(Chs(524288, 16, 64), 2);
    assert Absorb(Chs(524288, 16, 64), 2) == Absorb(Chs(262144, 16, 128), 2);
    assert Absorb(Chs(262144, 16, 128), 2) == Absorb(Chs(131072, 32, 128), 2);
    assert Absorb(Chs(131072, 32, 128), 2) == Absorb(Chs(65536, 64, 128), 2);
    assert Absorb(Chs(65536, 64, 128), 2) == Absorb(Chs(32768, 128, 128), 2);
    assert Absorb(Chs(32768, 128, 128), 2) == Absorb(Chs(16384, 256, 128), 2);
  }

  /** An image of 512 GiB (2^39 bytes) reaches 32768 cylinders with 256 heads
      and 128 sectors: the divisor 2 still divides, no branch fires, and the
      loop never ends. */
  lemma LoopHangsAt512GiB()
    ensures Geometry(0x80_0000_0000) == None
  {
    HangsFirstHalf();
    HangsSecondHalf();
    assert AbsorbOnce(Chs(32768, 256, 128), 2) == None;
  }

  lemma HangsFirstHalf()
    ensures Absorb(Chs(1073741824, 1, 1), 2) == Absorb(Chs(8388608, 16, 8), 2)
  {
    assert Absorb(Chs(1073741824, 1, 1), 2) == Absorb(Chs(536870912, 2, 1), 2);
    assert Absorb(Chs(536870912, 2, 1), 2) == Absorb(Chs(268435456, 4, 1), 2);
    assert Absorb(Chs(268435456, 4, 1), 2) == Absorb(Chs(134217728, 8, 1), 2);
    assert Absorb(Chs(134217728, 8, 1), 2) == Absorb(Chs(67108864, 16, 1), 2);
    assert Absorb(Chs(67108864, 16, 1), 2) == Absorb(Chs(33554432, 16, 2), 2);
    assert Absorb(Chs(33554432, 16, 2), 2) == Absorb(Chs(16777216, 16, 4), 2);
    assert Absorb(Chs(16777216, 16, 4), 2) == Absorb(Chs(8388608, 16, 8), 2);
  }

  lemma HangsSecondHalf()
    ensures Absorb(Chs(8388608, 16, 8), 2) == Absorb(Chs(32768, 256, 128), 2)
  {
    assert Absorb(Chs(8388608, 16, 8), 2) == Absorb(Chs(4194304, 16, 16), 2);
    assert Absorb(Chs(4194304, 16, 16), 2) == Absorb(Chs(2097152, 16, 32), 2);
    assert Absorb(Chs(2097152, 16, 32), 2) == Absorb(Chs(1048576, 16, 64), 2);
    assert Absorb(Chs(1048576, 16, 64), 2) == Absorb(Chs(524288, 16, 128), 2);
    assert Absorb(Chs(524288, 16, 128), 2) == Absorb(Chs(262144, 32, 128), 2);
    assert Absorb(Chs(262144, 32, 128), 2) == Absorb(Chs(131072, 64, 128), 2);
    assert Absorb(Chs(131072, 64, 128), 2) == Absorb(Chs(65536, 128, 128), 2);
    assert Absorb(Chs(65536, 128, 128), 2) == Absorb(Chs(32768, 256, 128), 2);
  }
}
