/**
What an open file means: its clusters name a sequence of sectors, and the private
sector buffer overlays one of them while it is dirty. The lemmas say what each kind
of step of f_read, f_write and f_lseek does to the bytes of the file.
*/
module FileView {
  import opened Bits
  import opened Layout
  import opened Entries
  import opened FatMap

  datatype View = View(g: Geometry, img: Image, chain: seq<nat>, dsect: nat, dirty: bool, buf: Sector)

  predicate Mapped(g: Geometry, chain: seq<nat>) {
    && Sound(g)
    && (forall i :: 0 <= i < |chain| ==> 2 <= chain[i] < g.nFatEnt)
    && Distinct(chain)
  }

  /** Does the chain reach the j-th sector of the file? */
  predicate Reaches(g: Geometry, chain: seq<nat>, j: nat) {
    g.csize > 0 && 0 <= j / g.csize < |chain|
  }

  /** Sector number of the j-th sector of the file. */
  function Lba(g: Geometry, chain: seq<nat>, j: nat): (s: nat)
    requires Mapped(g, chain) && Reaches(g, chain, j)
    ensures 0 < g.database <= s < g.sectors
  {
    LbaInside(g, chain, j);
    ClusterBase(g, chain[j / g.csize]) + j % g.csize
  }

  lemma LbaInside(g: Geometry, chain: seq<nat>, j: nat)
    requires Mapped(g, chain) && Reaches(g, chain, j)
    ensures g.database <= ClusterBase(g, chain[j / g.csize])
    ensures ClusterBase(g, chain[j / g.csize]) + g.csize <= g.sectors && 0 <= j % g.csize < g.csize
  {
    ClusterInside(g, chain[j / g.csize]);
  }

  lemma SameQuotient(a: nat, b: nat, d: nat)
    requires d > 0 && a / d == b / d && a % d == b % d
    ensures a == b
  {
    assert a == a / d * d + a % d;
    assert b == b / d * d + b % d;
  }

  /** Different sectors of a file lie in different sectors of the drive. */
  lemma LbaInjective(g: Geometry, chain: seq<nat>, i: nat, j: nat)
    requires Mapped(g, chain) && Reaches(g, chain, i) && Reaches(g, chain, j)
    requires Lba(g, chain, i) == Lba(g, chain, j)
    ensures i == j
  {
    hide IsPow2, FatFits;
    var a, b := i / g.csize, j / g.csize;
    ModRange(i, g.csize);
    ModRange(j, g.csize);
    SameCluster(g, chain[a], i % g.csize, chain[b], j % g.csize);
    assert a == b;
    SameQuotient(i, j, g.csize);
  }

  lemma ModRange(a: nat, d: nat)
    requires d > 0
    ensures 0 <= a % d < d
  {
  }

  lemma SameCluster(g: Geometry, c: nat, x: nat, d: nat, y: nat)
    requires x < g.csize && y < g.csize && ClusterBase(g, c) + x == ClusterBase(g, d) + y
    ensures c == d && x == y
  {
    if c < d {
      ClustersDisjoint(g, c, d);
    } else if d < c {
      ClustersDisjoint(g, d, c);
    }
  }

  /** Inside a cluster the sectors are contiguous. */
  lemma LbaContiguous(g: Geometry, chain: seq<nat>, j: nat, i: nat)
    requires Mapped(g, chain) && Reaches(g, chain, j) && j % g.csize + i < g.csize
    ensures Reaches(g, chain, j + i) && Lba(g, chain, j + i) == Lba(g, chain, j) + i && (j + i) / g.csize == j / g.csize
  {
    var q, r := j / g.csize, j % g.csize;
    assert j + i == q * g.csize + (r + i);
    DivModUnique(j + i, g.csize, q, r + i);
  }

  /** A run of sectors inside a cluster belongs to the file. */
  lemma RunOwned(g: Geometry, chain: seq<nat>, j: nat, n: nat)
    requires Mapped(g, chain) && Reaches(g, chain, j) && n > 0 && j % g.csize + n <= g.csize
    ensures Reaches(g, chain, j + (n - 1)) && (j + (n - 1)) / g.csize == j / g.csize
    ensures Lba(g, chain, j) + n <= g.sectors
    ensures forall t :: Lba(g, chain, j) <= t < Lba(g, chain, j) + n ==> Owns(g, chain, t)
  {
    hide Mapped, Lba;
    LbaContiguous(g, chain, j, n - 1);
    forall t | Lba(g, chain, j) <= t < Lba(g, chain, j) + n
      ensures Owns(g, chain, t)
    {
      LbaContiguous(g, chain, j, t - Lba(g, chain, j));
    }
  }

  lemma ReachesBelow(g: Geometry, chain: seq<nat>, i: nat, j: nat)
    requires i <= j && Reaches(g, chain, j)
    ensures Reaches(g, chain, i)
  {
    DivMonotone(i, j, g.csize);
  }

  lemma DivMonotone(i: nat, j: nat, d: nat)
    requires i <= j && d > 0
    ensures i / d <= j / d
  {
    var a, b := i / d, j / d;
    if a > b {
      ScaleLess(b, a, d);
    }
  }

  /** Is sector s one of the file's? */
  ghost predicate Owns(g: Geometry, chain: seq<nat>, s: nat)
    requires Mapped(g, chain)
  {
    exists j: nat :: Reaches(g, chain, j) && Lba(g, chain, j) == s
  }

  /** Outside the FAT only sectors of the file are touched. */
  ghost predicate Elsewhere(g: Geometry, chain: seq<nat>, a: Image, b: Image)
    requires Mapped(g, chain)
  {
    && |a| == |b|
    && forall s: nat {:trigger b[s]} ::
         s < |a| && !(g.fatbase <= s < FatEnd(g)) && !Owns(g, chain, s) ==> b[s] == a[s]
  }

  lemma OwnsMore(g: Geometry, xs: seq<nat>, ys: seq<nat>, s: nat)
    requires Mapped(g, xs) && Mapped(g, ys) && xs <= ys && Owns(g, xs, s)
    ensures Owns(g, ys, s)
  {
    var j: nat :| Reaches(g, xs, j) && Lba(g, xs, j) == s;
    assert Reaches(g, ys, j) && Lba(g, ys, j) == s;
  }

  lemma ElsewhereTrans(g: Geometry, xs: seq<nat>, ys: seq<nat>, a: Image, b: Image, c: Image)
    requires Mapped(g, xs) && Mapped(g, ys) && xs <= ys
    requires Elsewhere(g, xs, a, b) && Elsewhere(g, ys, b, c)
    ensures Elsewhere(g, ys, a, c)
  {
    hide Mapped;
    forall s: nat | s < |a| && !(g.fatbase <= s < FatEnd(g)) && !Owns(g, ys, s)
      ensures c[s] == a[s]
    {
      if Owns(g, xs, s) {
        OwnsMore(g, xs, ys, s);
      }
      assert b[s] == a[s];
    }
  }

  lemma FatChangeElsewhere(g: Geometry, chain: seq<nat>, a: Image, b: Image)
    requires Mapped(g, chain) && |a| == |b| && SameOutsideFat(g, a, b)
    ensures Elsewhere(g, chain, a, b)
  {
  }

  /** Everything about a view but that a clean buffer agrees with the drive. */
  predicate Framed(v: View) {
    && OnDrive(v.g, v.img) && Mapped(v.g, v.chain)
    && (v.dsect != 0 ==> v.g.database <= v.dsect < v.g.sectors)
    && (v.dirty ==> v.dsect != 0)
  }

  predicate Good(v: View) {
    Framed(v) && (v.dsect != 0 && !v.dirty ==> v.buf == v.img[v.dsect])
  }

  /** Content of the j-th sector. */
  function SectorAt(v: View, j: nat): Sector
    requires Framed(v) && Reaches(v.g, v.chain, j)
  {
    var s := Lba(v.g, v.chain, j);
    if v.dirty && s == v.dsect then v.buf else v.img[s]
  }

  function ByteAt(v: View, k: nat): Byte
    requires Framed(v) && Reaches(v.g, v.chain, k / 512)
  {
    SectorAt(v, k / 512)[k % 512]
  }

  /** Do the clusters hold n bytes? */
  predicate Holds(v: View, n: nat) {
    n > 0 ==> Reaches(v.g, v.chain, (n - 1) / 512)
  }

  lemma HoldsBelow(v: View, k: nat, n: nat)
    requires k < n && Holds(v, n)
    ensures Reaches(v.g, v.chain, k / 512)
  {
    ReachesBelow(v.g, v.chain, k / 512, (n - 1) / 512);
  }

  /** The first n bytes of the file. */
  function Bytes(v: View, n: nat): (r: seq<Byte>)
    requires Framed(v) && Holds(v, n)
    ensures |r| == n
  {
    seq(n, k requires 0 <= k < n => HoldsBelow(v, k, n); ByteAt(v, k))
  }

  lemma BytesExtensional(v: View, n: nat, c: seq<Byte>)
    requires Framed(v) && Holds(v, n) && |c| == n
    requires forall k: nat :: k < n && Reaches(v.g, v.chain, k / 512) ==> ByteAt(v, k) == c[k]
    ensures Bytes(v, n) == c
  {
    forall k: nat | k < n
      ensures Bytes(v, n)[k] == c[k]
    {
      HoldsBelow(v, k, n);
    }
  }

  lemma BytesAt(v: View, n: nat, k: nat)
    requires Framed(v) && Holds(v, n) && k < n
    ensures Reaches(v.g, v.chain, k / 512) && Bytes(v, n)[k] == ByteAt(v, k)
  {
    HoldsBelow(v, k, n);
  }

  /** Byte k of a file lies in the cluster k / 512 / csize of its chain, unless the dirty buffer shows it. */
  lemma ByteInPlain(v: View, n: nat, k: nat)
    requires Framed(v) && Holds(v, n) && k < n
    ensures v.g.csize > 0
    ensures var j, s := k / 512 / v.g.csize, k / 512 % v.g.csize;
      && 0 <= j < |v.chain| && 0 <= ClusterBase(v.g, v.chain[j]) + s < |v.img|
      && Bytes(v, n)[k] == if v.dirty && v.dsect == ClusterBase(v.g, v.chain[j]) + s then v.buf[k % 512]
                           else v.img[ClusterBase(v.g, v.chain[j]) + s][k % 512]
  {
    hide Bytes, Sound;
    BytesAt(v, n, k);
    LbaInside(v.g, v.chain, k / 512);
    hide OnDrive;
    FramedSize(v);
  }

  lemma FramedSize(v: View)
    requires Framed(v)
    ensures |v.img| == v.g.sectors
  {
  }

  lemma BytesPrefix(v: View, m: nat, n: nat)
    requires Framed(v) && Holds(v, m) && Holds(v, n) && m <= n
    ensures Bytes(v, n)[..m] == Bytes(v, m)
  {
    hide Mapped, ByteAt;
    var a, b := Bytes(v, n)[..m], Bytes(v, m);
    forall k: nat | k < m
      ensures a[k] == b[k]
    {
      BytesAt(v, n, k);
      BytesAt(v, m, k);
    }
  }

  /** The content after d has been written at p. */
  function Overwrite(c: seq<Byte>, p: nat, d: seq<Byte>): (r: seq<Byte>)
    requires p <= |c|
    ensures |r| == if p + |d| <= |c| then |c| else p + |d|
  {
    if p + |d| <= |c| then c[..p] + d + c[p + |d|..] else c[..p] + d
  }

  lemma OverwriteTwice(c: seq<Byte>, p: nat, d: seq<Byte>, e: seq<Byte>)
    requires p <= |c|
    ensures Overwrite(Overwrite(c, p, d), p + |d|, e) == Overwrite(c, p, d + e)
  {
    var b := Overwrite(c, p, d);
    var x, y := Overwrite(b, p + |d|, e), Overwrite(c, p, d + e);
    forall k: nat | k < |x|
      ensures x[k] == y[k]
    {
      if k < |b| {
        OverwriteAt(c, p, d, k);
      }
      OverwriteAt(b, p + |d|, e, k);
      OverwriteAt(c, p, d + e, k);
    }
  }

  lemma OverwriteAt(c: seq<Byte>, p: nat, d: seq<Byte>, k: nat)
    requires p <= |c| && k < |Overwrite(c, p, d)|
    ensures Overwrite(c, p, d)[k] == if p <= k < p + |d| then d[k - p] else c[k]
  {
  }

  function Max(a: nat, b: nat): nat {
    if a >= b then a else b
  }

  /** A write of m bytes at p leaves the meaning below Max(size, p) alone outside [p, p + m). */
  lemma {:induction false} Written(v: View, w: View, size: nat, p: nat, d: seq<Byte>)
    requires Framed(v) && Framed(w) && v.g == w.g && v.chain == w.chain
    requires Holds(v, Max(size, p)) && Holds(w, Max(size, p + |d|)) && |d| > 0
    requires forall k: nat :: k < Max(size, p + |d|) && Reaches(w.g, w.chain, k / 512) ==>
      ByteAt(w, k) == if p <= k < p + |d| then d[k - p] else ByteAt(v, k)
    ensures Bytes(w, Max(size, p + |d|)) == Overwrite(Bytes(v, Max(size, p)), p, d)
  {
    hide Framed, ByteAt;
    var c := Bytes(v, Max(size, p));
    forall k: nat | k < Max(size, p + |d|) && Reaches(w.g, w.chain, k / 512)
      ensures ByteAt(w, k) == Overwrite(c, p, d)[k]
    {
      OverwriteAt(c, p, d, k);
      if !(p <= k < p + |d|) {
        BytesAt(v, Max(size, p), k);
      }
    }
    BytesExtensional(w, Max(size, p + |d|), Overwrite(c, p, d));
  }

  // ------------------------------------------------------------- the steps

  lemma SameSectors(v: View, w: View, n: nat)
    requires Framed(v) && Framed(w) && v.g == w.g && v.chain <= w.chain && Holds(v, n)
    requires forall j: nat :: Reaches(v.g, v.chain, j) && Reaches(w.g, w.chain, j) ==> SectorAt(w, j) == SectorAt(v, j)
    ensures Holds(w, n) && Bytes(w, n) == Bytes(v, n)
  {
    hide Framed, SectorAt;
    var c := Bytes(v, n);
    forall k: nat | k < n && Reaches(w.g, w.chain, k / 512)
      ensures ByteAt(w, k) == c[k]
    {
      BytesAt(v, n, k);
    }
    BytesExtensional(w, n, c);
  }

  /** The drive after a flush of the dirty buffer. */
  function Flushed(v: View): (w: View)
    requires Framed(v) && v.dirty
    ensures Good(w)
  {
    v.(img := v.img[v.dsect := v.buf], dirty := false)
  }

  lemma FlushKeeps(v: View, n: nat)
    requires Good(v) && v.dirty && Holds(v, n)
    ensures Bytes(Flushed(v), n) == Bytes(v, n)
  {
    hide Mapped;
    SameSectors(v, Flushed(v), n);
  }

  /** A clean buffer moved to another sector of the file. */
  function Loaded(v: View, s: nat): (w: View)
    requires Good(v) && !v.dirty && v.g.database <= s < v.g.sectors
    ensures Good(w)
  {
    v.(dsect := s, buf := v.img[s])
  }

  /** Another sector in the buffer; nothing is loaded if the buffer is taken to show that sector. */
  function Switched(v: View, s: nat): (w: View)
    requires Framed(v) && v.g.database <= s < v.g.sectors
  {
    if v.dsect == s then v
    else
      var u := if v.dirty then Flushed(v) else v;
      u.(dsect := s, buf := u.img[s])
  }

  lemma LoadKeeps(v: View, s: nat, n: nat)
    requires Good(v) && !v.dirty && v.g.database <= s < v.g.sectors && Holds(v, n)
    ensures Bytes(Loaded(v, s), n) == Bytes(v, n)
  {
    hide Mapped;
    SameSectors(v, Loaded(v, s), n);
  }

  /** The chain grown by a cluster, and FAT sectors changed. */
  predicate Grown(v: View, w: View) {
    w.g == v.g && v.chain <= w.chain && w.dsect == v.dsect && w.dirty == v.dirty && w.buf == v.buf
  }

  lemma GrowKeeps(v: View, w: View, n: nat)
    requires Good(v) && Grown(v, w) && OnDrive(v.g, w.img) && Mapped(w.g, w.chain) && Holds(v, n)
    requires SameOutsideFat(v.g, v.img, w.img)
    ensures Good(w) && Holds(w, n) && Bytes(w, n) == Bytes(v, n)
  {
    GrowGood(v, w);
    forall j: nat | Reaches(v.g, v.chain, j) && Reaches(w.g, w.chain, j)
      ensures SectorAt(w, j) == SectorAt(v, j)
    {
    }
    SameSectors(v, w, n);
  }

  lemma GrowGood(v: View, w: View)
    requires Good(v) && Grown(v, w) && OnDrive(v.g, w.img) && Mapped(w.g, w.chain)
    requires SameOutsideFat(v.g, v.img, w.img)
    ensures Good(w)
  {
  }

  /** Part of sector j replaced in the buffer, which b held the content of. */
  function Copied(v: View, j: nat, b: Sector, o: nat, d: seq<Byte>): (w: View)
    requires Framed(v) && Reaches(v.g, v.chain, j) && o + |d| <= 512
    ensures Good(w)
  {
    v.(dsect := Lba(v.g, v.chain, j), buf := Spliced(b, o, d), dirty := true)
  }

  lemma CopyWrites(v: View, size: nat, p: nat, b: Sector, d: seq<Byte>)
    requires Framed(v) && Reaches(v.g, v.chain, p / 512) && p % 512 + |d| <= 512 && |d| > 0
    requires Holds(v, Max(size, p))
    requires v.dirty ==> v.dsect == Lba(v.g, v.chain, p / 512)
    requires forall o: nat :: o < 512 && 512 * (p / 512) + o < Max(size, p) ==> b[o] == SectorAt(v, p / 512)[o]
    ensures var w := Copied(v, p / 512, b, p % 512, d);
      Holds(w, Max(size, p + |d|)) && Bytes(w, Max(size, p + |d|)) == Overwrite(Bytes(v, Max(size, p)), p, d)
  {
    hide Mapped;
    var j := p / 512;
    var w := Copied(v, j, b, p % 512, d);
    assert Holds(w, Max(size, p + |d|)) by {
      if size < p + |d| {
        assert (p + |d| - 1) / 512 == j;
      }
    }
    forall k: nat | k < Max(size, p + |d|) && Reaches(w.g, w.chain, k / 512)
      ensures ByteAt(w, k) == if p <= k < p + |d| then d[k - p] else ByteAt(v, k)
    {
      CopyByte(v, size, p, b, d, k);
    }
    Written(v, w, size, p, d);
  }

  lemma CopyByte(v: View, size: nat, p: nat, b: Sector, d: seq<Byte>, k: nat)
    requires Framed(v) && Reaches(v.g, v.chain, p / 512) && p % 512 + |d| <= 512 && |d| > 0
    requires v.dirty ==> v.dsect == Lba(v.g, v.chain, p / 512)
    requires forall o: nat :: o < 512 && 512 * (p / 512) + o < Max(size, p) ==> b[o] == SectorAt(v, p / 512)[o]
    requires k < Max(size, p + |d|) && Reaches(v.g, v.chain, k / 512)
    ensures ByteAt(Copied(v, p / 512, b, p % 512, d), k) == if p <= k < p + |d| then d[k - p] else ByteAt(v, k)
  {
    hide Mapped, Lba;
    if k / 512 != p / 512 && Lba(v.g, v.chain, k / 512) == Lba(v.g, v.chain, p / 512) {
      LbaInjective(v.g, v.chain, k / 512, p / 512);
    }
  }

  /** Whole sectors written straight to the drive, the buffer refilled if it shows one of them. */
  function Direct(v: View, s: nat, d: seq<Byte>): (w: View)
    requires Good(v) && !v.dirty && |d| % 512 == 0 && s + |d| / 512 <= v.g.sectors
    ensures Good(w) && w.g == v.g && w.chain == v.chain
  {
    if s <= v.dsect < s + |d| / 512 then
      BlitAt(v.img, s, d, v.dsect);
      v.(img := Blit(v.img, s, d), buf := Slice(d, v.dsect - s))
    else
      assert v.dsect < |v.img| ==> Blit(v.img, s, d)[v.dsect] == v.img[v.dsect];
      v.(img := Blit(v.img, s, d))
  }

  lemma DirectWrites(v: View, size: nat, p: nat, d: seq<Byte>)
    requires Good(v) && !v.dirty && p % 512 == 0 && |d| % 512 == 0 && |d| > 0
    requires Reaches(v.g, v.chain, p / 512) && p / 512 % v.g.csize + |d| / 512 <= v.g.csize
    requires Holds(v, Max(size, p))
    ensures Lba(v.g, v.chain, p / 512) + |d| / 512 <= v.g.sectors
    ensures var w := Direct(v, Lba(v.g, v.chain, p / 512), d);
      Holds(w, Max(size, p + |d|)) && Bytes(w, Max(size, p + |d|)) == Overwrite(Bytes(v, Max(size, p)), p, d)
  {
    hide Mapped;
    var j, n := p / 512, |d| / 512;
    LbaContiguous(v.g, v.chain, j, n - 1);
    var s := Lba(v.g, v.chain, j);
    var w := Direct(v, s, d);
    assert Holds(w, Max(size, p + |d|)) by {
      if size < p + |d| {
        assert (p + |d| - 1) / 512 == j + (n - 1);
      }
    }
    forall k: nat | k < Max(size, p + |d|) && Reaches(w.g, w.chain, k / 512)
      ensures ByteAt(w, k) == if p <= k < p + |d| then d[k - p] else ByteAt(v, k)
    {
      DirectByte(v, p, d, k);
    }
    Written(v, w, size, p, d);
  }

  lemma DirectElsewhere(v: View, j: nat, d: seq<Byte>)
    requires Good(v) && !v.dirty && |d| % 512 == 0 && |d| > 0
    requires Reaches(v.g, v.chain, j) && j % v.g.csize + |d| / 512 <= v.g.csize
    requires Lba(v.g, v.chain, j) + |d| / 512 <= v.g.sectors
    ensures Elsewhere(v.g, v.chain, v.img, Direct(v, Lba(v.g, v.chain, j), d).img)
  {
    hide Mapped, Lba;
    var s, n := Lba(v.g, v.chain, j), |d| / 512;
    var w := Direct(v, s, d);
    forall t: nat | t < |v.img| && !(v.g.fatbase <= t < FatEnd(v.g)) && !Owns(v.g, v.chain, t)
      ensures w.img[t] == v.img[t]
    {
      if s <= t < s + n {
        LbaContiguous(v.g, v.chain, j, t - s);
      }
      BlitAt(v.img, s, d, t);
    }
  }

  lemma DirectByte(v: View, p: nat, d: seq<Byte>, k: nat)
    requires Good(v) && !v.dirty && p % 512 == 0 && |d| % 512 == 0 && |d| > 0
    requires Reaches(v.g, v.chain, p / 512) && p / 512 % v.g.csize + |d| / 512 <= v.g.csize
    requires Reaches(v.g, v.chain, k / 512) && Lba(v.g, v.chain, p / 512) + |d| / 512 <= v.g.sectors
    ensures ByteAt(Direct(v, Lba(v.g, v.chain, p / 512), d), k)
            == if p <= k < p + |d| then d[k - p] else ByteAt(v, k)
  {
    hide Mapped, Lba;
    var j, i, n := p / 512, k / 512, |d| / 512;
    var s, t := Lba(v.g, v.chain, j), Lba(v.g, v.chain, i);
    if p <= k < p + |d| {
      LbaContiguous(v.g, v.chain, j, i - j);
    } else if s <= t < s + n {
      LbaContiguous(v.g, v.chain, j, t - s);
      LbaInjective(v.g, v.chain, j + (t - s), i);
    }
    BlitAt(v.img, s, d, t);
  }

  /** What a direct read of n sectors returns, the dirty sector among them taken from the buffer. */
  function Fetched(v: View, s: nat, n: nat): (d: seq<Byte>)
    requires Framed(v) && s + n <= v.g.sectors
    ensures |d| == 512 * n
  {
    if v.dirty && s <= v.dsect < s + n then Spliced(Raw(v.img, s, n), 512 * (v.dsect - s), v.buf) else Raw(v.img, s, n)
  }

  lemma FetchedAt(v: View, j: nat, n: nat, k: nat)
    requires Framed(v) && Reaches(v.g, v.chain, j) && n > 0 && j % v.g.csize + n <= v.g.csize
    requires Lba(v.g, v.chain, j) + n <= v.g.sectors && k < 512 * n
    ensures Reaches(v.g, v.chain, j + k / 512)
    ensures Fetched(v, Lba(v.g, v.chain, j), n)[k] == ByteAt(v, 512 * j + k)
  {
    hide Mapped, Lba;
    var s, i := Lba(v.g, v.chain, j), k / 512;
    LbaContiguous(v.g, v.chain, j, i);
    RawAt(v.img, s, n, k);
    assert (512 * j + k) / 512 == j + i && (512 * j + k) % 512 == k % 512;
  }

  /** A direct read returns the bytes of the file. */
  lemma FetchedBytes(v: View, size: nat, p: nat, n: nat)
    requires Framed(v) && Holds(v, size) && p % 512 == 0 && p + 512 * n <= size
    requires Reaches(v.g, v.chain, p / 512) && n > 0 && p / 512 % v.g.csize + n <= v.g.csize
    requires Lba(v.g, v.chain, p / 512) + n <= v.g.sectors
    ensures Fetched(v, Lba(v.g, v.chain, p / 512), n) == Bytes(v, size)[p..p + 512 * n]
  {
    hide Mapped, Lba, Fetched, ByteAt, Bytes;
    var d, b := Fetched(v, Lba(v.g, v.chain, p / 512), n), Bytes(v, size);
    var e := b[p..p + 512 * n];
    forall k: nat | k < 512 * n
      ensures d[k] == e[k]
    {
      FetchedAt(v, p / 512, n, k);
      BytesAt(v, size, p + k);
    }
  }

  /** A buffer that stands for sector j holds its bytes. */
  lemma BufferedBytes(v: View, size: nat, p: nat, n: nat)
    requires Good(v) && Holds(v, size) && p % 512 + n <= 512 && n > 0 && p + n <= size
    requires Reaches(v.g, v.chain, p / 512) && v.dsect == Lba(v.g, v.chain, p / 512)
    ensures v.buf[p % 512..p % 512 + n] == Bytes(v, size)[p..p + n]
  {
    hide Mapped, Lba, Bytes;
    var b := Bytes(v, size);
    var d, e := v.buf[p % 512..p % 512 + n], b[p..p + n];
    forall k: nat | k < n
      ensures d[k] == e[k]
    {
      BytesAt(v, size, p + k);
      assert (p + k) / 512 == p / 512 && (p + k) % 512 == p % 512 + k;
    }
  }

  /** The chain cut to a prefix, FAT sectors changed, and a dirty buffer flushed. */
  function Shrunk(v: View, chain: seq<nat>, img: Image): (w: View)
    requires Framed(v) && OnDrive(v.g, img)
  {
    if v.dirty then v.(chain := chain, img := img[v.dsect := v.buf], dirty := false) else v.(chain := chain, img := img)
  }

  lemma ShrinkKeeps(v: View, chain: seq<nat>, img: Image, n: nat)
    requires Good(v) && chain <= v.chain && OnDrive(v.g, img) && SameOutsideFat(v.g, v.img, img) && Mapped(v.g, chain)
    requires Holds(v, n) && (n > 0 ==> Reaches(v.g, chain, (n - 1) / 512))
    ensures Good(Shrunk(v, chain, img)) && Holds(Shrunk(v, chain, img), n)
    ensures Bytes(Shrunk(v, chain, img), n) == Bytes(v, n)
  {
    var w := Shrunk(v, chain, img);
    var c := Bytes(v, n);
    forall k: nat | k < n && Reaches(w.g, w.chain, k / 512)
      ensures ByteAt(w, k) == c[k]
    {
      BytesAt(v, n, k);
    }
    BytesExtensional(w, n, c);
  }
}
