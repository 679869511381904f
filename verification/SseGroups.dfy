/** Groups of sixteen elements moved through registers: what a kernel has to leave in its
    registers so that storing them transposes the group, proved of every kernel, and the
    stores themselves. */
module SseGroups {
  import opened Sse
  import opened Transposition
  import opened Regions

  /** Registers loaded from consecutive places. */
  function Consecutive<T>(x: seq<T>): File<T>
    requires |x| > 0
  {
    (r: Quad, m: Quad) => if 16 * Num(r) + Num(m) < |x| then x[16 * Num(r) + Num(m)] else x[0]
  }

  /** Between one and sixteen registers. */
  predicate Regs<T>(xs: seq<seq<T>>) {
    0 < |xs| <= 16 && forall r :: 0 <= r < |xs| ==> |xs[r]| == 16
  }

  /** Registers that have been loaded one by one. */
  function Loaded<T>(xs: seq<seq<T>>): File<T>
    requires Regs(xs)
  {
    (r: Quad, m: Quad) => if Num(r) < |xs| then xs[Num(r)][Num(m)] else xs[0][Num(m)]
  }

  /** Sixteen places of a register, in order. */
  function Contents<T>(f: File<T>, r: Quad): (v: seq<T>)
    ensures |v| == 16
  {
    seq(16, i requires 0 <= i < 16 => f(r, Digits(i)))
  }

  /** Place p is byte k of element i. */
  predicate IsPlace(e: nat, i: nat, k: nat, p: nat) {
    && (e == 2 ==> p == 2 * i + k) && (e == 4 ==> p == 4 * i + k)
    && (e == 8 ==> p == 8 * i + k) && (e == 16 ==> p == 16 * i + k)
  }

  lemma PlaceIs(e: nat, i: nat, k: nat)
    requires Small(e) && k < e && i < 16
    ensures IsPlace(e, i, k, Idx(i, e, k)) && Idx(i, e, k) < 16 * e
  {
    IdxIs(i, e, k);
  }

  lemma PlaceOnly(e: nat, i: nat, k: nat, p: nat)
    requires Small(e) && IsPlace(e, i, k, p)
    ensures Idx(i, e, k) == p
  {
    IdxIs(i, e, k);
  }

  // ---------------------------------------------------------------------------
  // Shuffle kernels: register k ends with byte k of elements 0 to 15
  // ---------------------------------------------------------------------------

  lemma Trans16Right<T>(x: seq<T>, k: nat, i: nat)
    requires |x| == 32 && k < 2 && i < 16
    ensures Trans16(Consecutive(x))(Digits(k), Digits(i)) == x[2 * i + k]
  {
    Trans16At(Consecutive(x), Digits(k), Digits(i));
  }

  lemma Trans32Right<T>(x: seq<T>, k: nat, i: nat)
    requires |x| == 64 && k < 4 && i < 16
    ensures Trans32(Consecutive(x))(Digits(k), Digits(i)) == x[4 * i + k]
  {
    Trans32At(Consecutive(x), Digits(k), Digits(i));
  }

  lemma Trans64Right<T>(x: seq<T>, k: nat, i: nat)
    requires |x| == 128 && k < 8 && i < 16
    ensures Trans64(Consecutive(x))(Digits(k), Digits(i)) == x[8 * i + k]
  {
    Trans64At(Consecutive(x), Digits(k), Digits(i));
  }

  lemma Shuffle2Right<T>(x: seq<T>, k: nat, i: nat)
    requires |x| == 32 && k < 2 && i < 16
    ensures Shuffle2(Consecutive(x))(Digits(k), Digits(i)) == x[2 * i + k]
  {
    Shuffle2At(Consecutive(x), Digits(k), Digits(i));
  }

  lemma Shuffle4Right<T>(x: seq<T>, k: nat, i: nat)
    requires |x| == 64 && k < 4 && i < 16
    ensures Shuffle4(Consecutive(x))(Digits(k), Digits(i)) == x[4 * i + k]
  {
    Shuffle4At(Consecutive(x), Digits(k), Digits(i));
  }

  lemma Shuffle8Right<T>(x: seq<T>, k: nat, i: nat)
    requires |x| == 128 && k < 8 && i < 16
    ensures Shuffle8(Consecutive(x))(Digits(k), Digits(i)) == x[8 * i + k]
  {
    Shuffle8At(Consecutive(x), Digits(k), Digits(i));
  }

  lemma Shuffle16Right<T>(xs: seq<seq<T>>, k: nat, i: nat)
    requires Regs(xs) && |xs| == 16 && k < 16 && i < 16
    ensures Shuffle16(Loaded(xs))(Digits(k), Digits(i)) == xs[i][k]
  {
    Shuffle16At(Loaded(xs), Digits(k), Digits(i));
  }

  /** The first n registers, to be stored in this order. */
  function Rows<T>(g: File<T>, n: nat): (rows: seq<seq<T>>)
    requires n <= 16
    ensures |rows| == n && forall k :: 0 <= k < n ==> |rows[k]| == 16
  {
    seq(n, k requires 0 <= k < n => Contents(g, Digits(k)))
  }

  /** v holds byte c of the sixteen elements from j on. */
  ghost predicate Column<T>(s: seq<T>, ts: nat, j: nat, c: nat, v: seq<T>) {
    && |v| == 16
    && forall i: nat {:trigger v[i]} :: i < 16 ==> Idx(j + i, ts, c) < |s| && v[i] == s[Idx(j + i, ts, c)]
  }

  /** Row k holds byte off + k of the sixteen elements from j on. */
  ghost predicate Gathered<T>(s: seq<T>, ts: nat, j: nat, off: nat, rows: seq<seq<T>>) {
    forall k: nat {:trigger rows[k]} :: k < |rows| ==> Column(s, ts, j, off + k, rows[k])
  }

  lemma RowByte<T>(s: seq<T>, total: nat, ts: nat, j: nat, c: nat, p: nat, d: nat)
    requires |s| == total * ts && j + d < total && c < ts && p == Idx(c, total, j)
    ensures p + d < |s| && Idx(j + d, ts, c) < |s| && Transposed(s, total, ts)[p + d] == s[Idx(j + d, ts, c)]
  {
    TransposedAt(s, total, ts, j + d, c);
    IdxShift(c, total, j, d);
  }

  lemma SameRun<T>(v: seq<T>, t: seq<T>, p: nat)
    requires p + |v| <= |t| && forall i: nat {:trigger v[i]} :: i < |v| ==> v[i] == t[p + i]
    ensures v == t[p..p + |v|]
  {
    var u := t[p..p + |v|];
    forall i: nat | i < |v|
      ensures v[i] == u[i]
    {
      assert u[i] == t[p + i];
    }
  }

  lemma RowIsRun<T>(s: seq<T>, total: nat, ts: nat, j: nat, c: nat, v: seq<T>, p: nat)
    requires |s| == total * ts && j + 16 <= total && c < ts && Column(s, ts, j, c, v) && p == Idx(c, total, j)
    ensures p + 16 <= |s| && v == Transposed(s, total, ts)[p..p + 16]
  {
    RowByte(s, total, ts, j, c, p, 15);
    forall i: nat | i < 16
      ensures v[i] == Transposed(s, total, ts)[p + i]
    {
      RowByte(s, total, ts, j, c, p, i);
    }
    SameRun(v, Transposed(s, total, ts), p);
  }

  /** Place i of register k of g is byte k of element i of x. */
  ghost predicate Transposes<T>(e: nat, x: seq<T>, g: File<T>) {
    && |x| == 16 * e && e <= 16
    && forall k: nat, i: nat {:trigger g(Digits(k), Digits(i))} :: k < e && i < 16 ==>
         Idx(i, e, k) < |x| && g(Digits(k), Digits(i)) == x[Idx(i, e, k)]
  }

  lemma GroupEnd(total: nat, e: nat, j: nat)
    requires j + 16 <= total
    ensures Idx(j, e, 0) + 16 * e <= total * e
  {
    RowStep(j + 15, total, e);
    IdxIs(j, e, 0);
    assert (j + 15) * e + e == j * e + 16 * e;
  }

  lemma GroupByte<T>(s: seq<T>, e: nat, j: nat, k: nat, b: nat, g: File<T>, i: nat)
    requires b == Idx(j, e, 0) && b + 16 * e <= |s| && Transposes(e, s[b..b + 16 * e], g) && k < e && i < 16
    ensures Idx(j + i, e, k) < |s| && Contents(g, Digits(k))[i] == s[Idx(j + i, e, k)]
  {
    var x, p := s[b..b + 16 * e], Idx(i, e, k);
    var y := g(Digits(k), Digits(i));
    assert p < |x| && y == x[p];
    IdxAdd(j, i, e, k);
    assert x[p] == s[b + p];
  }

  lemma GroupColumn<T>(s: seq<T>, e: nat, j: nat, k: nat, b: nat, g: File<T>, v: seq<T>)
    requires b == Idx(j, e, 0) && b + 16 * e <= |s| && Transposes(e, s[b..b + 16 * e], g) && k < e &&
             v == Contents(g, Digits(k))
    ensures Column(s, e, j, k, v)
  {
    assert |v| == 16;
    forall i: nat {:trigger v[i]} | i < 16
      ensures Idx(j + i, e, k) < |s| && v[i] == s[Idx(j + i, e, k)]
    {
      GroupByte(s, e, j, k, b, g, i);
    }
  }

  /** The sixteen elements from j on, which start at place b, transposed in registers. */
  lemma GroupGathered<T>(s: seq<T>, e: nat, j: nat, b: nat, g: File<T>)
    requires b == Idx(j, e, 0) && b + 16 * e <= |s| && Transposes(e, s[b..b + 16 * e], g)
    ensures Gathered(s, e, j, 0, Rows(g, e))
  {
    var rows := Rows(g, e);
    forall k: nat | k < e
      ensures Column(s, e, j, 0 + k, rows[k])
    {
      GroupColumn(s, e, j, k, b, g, rows[k]);
    }
  }

  // ---------------------------------------------------------------------------
  // The kernels of bitshuffle and of Blosc
  // ---------------------------------------------------------------------------

  /** The byte transposes of bitshuffle, and the shuffles of Blosc. */
  datatype Family = Trans | Shuffle

  predicate HasKernel(fam: Family, e: nat) {
    e == 2 || e == 4 || e == 8 || (e == 16 && fam == Shuffle)
  }

  /** The kernel for elements of e bytes. */
  function Kernel<T>(fam: Family, e: nat, f: File<T>): File<T> {
    match fam
    case Trans => if e == 2 then Trans16(f) else if e == 4 then Trans32(f) else Trans64(f)
    case Shuffle =>
      if e == 2 then Shuffle2(f) else if e == 4 then Shuffle4(f) else if e == 8 then Shuffle8(f) else Shuffle16(f)
  }

  lemma TransByte<T>(e: nat, x: seq<T>, k: nat, i: nat, p: nat)
    requires HasKernel(Trans, e) && |x| == 16 * e && k < e && i < 16 && IsPlace(e, i, k, p) && p < |x|
    ensures Kernel(Trans, e, Consecutive(x))(Digits(k), Digits(i)) == x[p]
  {
    if e == 2 {
      Trans16Right(x, k, i);
    } else if e == 4 {
      Trans32Right(x, k, i);
    } else {
      Trans64Right(x, k, i);
    }
  }

  lemma Consecutive16Right<T>(x: seq<T>, k: nat, i: nat)
    requires |x| == 256 && k < 16 && i < 16
    ensures Shuffle16(Consecutive(x))(Digits(k), Digits(i)) == x[16 * i + k]
  {
    Shuffle16At(Consecutive(x), Digits(k), Digits(i));
  }

  lemma ShuffleByte<T>(e: nat, x: seq<T>, k: nat, i: nat, p: nat)
    requires HasKernel(Shuffle, e) && |x| == 16 * e && k < e && i < 16 && IsPlace(e, i, k, p) && p < |x|
    ensures Kernel(Shuffle, e, Consecutive(x))(Digits(k), Digits(i)) == x[p]
  {
    if e == 2 {
      Shuffle2Right(x, k, i);
    } else if e == 4 {
      Shuffle4Right(x, k, i);
    } else if e == 8 {
      Shuffle8Right(x, k, i);
    } else {
      Consecutive16Right(x, k, i);
    }
  }

  lemma KernelRight<T>(fam: Family, e: nat, x: seq<T>)
    requires HasKernel(fam, e) && |x| == 16 * e
    ensures Transposes(e, x, Kernel(fam, e, Consecutive(x)))
  {
    forall k: nat, i: nat | k < e && i < 16
      ensures Idx(i, e, k) < |x| && Kernel(fam, e, Consecutive(x))(Digits(k), Digits(i)) == x[Idx(i, e, k)]
    {
      PlaceIs(e, i, k);
      if fam == Trans {
        TransByte(e, x, k, i, Idx(i, e, k));
      } else {
        ShuffleByte(e, x, k, i, Idx(i, e, k));
      }
    }
  }

  /** Sixteen elements from place b on, through the registers. */
  function Group<T>(fam: Family, s: seq<T>, e: nat, b: nat): (rows: seq<seq<T>>)
    requires HasKernel(fam, e) && b + 16 * e <= |s|
    ensures |rows| == e
  {
    Rows(Kernel(fam, e, Consecutive(s[b..b + 16 * e])), e)
  }

  lemma GroupRight<T>(fam: Family, s: seq<T>, total: nat, e: nat, j: nat, b: nat)
    requires HasKernel(fam, e) && |s| == total * e && j + 16 <= total && b == Idx(j, e, 0)
    ensures b + 16 * e <= |s| && Gathered(s, e, j, 0, Group(fam, s, e, b))
  {
    GroupEnd(total, e, j);
    KernelRight(fam, e, s[b..b + 16 * e]);
    GroupGathered(s, e, j, b, Kernel(fam, e, Consecutive(s[b..b + 16 * e])));
  }

  /** The stores of a shuffle kernel: register k to row off + k of the result. */
  method StoreRows<T>(s: seq<T>, dest: array<T>, o: nat, total: nat, ts: nat, j: nat, off: nat, rows: seq<seq<T>>)
    requires |s| == total * ts && o + |s| <= dest.Length && j + 16 <= total && off + |rows| <= ts
    requires Gathered(s, ts, j, off, rows)
    modifies dest
    ensures Keeps(old(dest[..]), dest[..], o, Transposed(s, total, ts))
    ensures Filled(dest[..], o, Transposed(s, total, ts), total, off, off + |rows|, j, j + 16)
  {
    ghost var t := Transposed(s, total, ts);
    ghost var a := dest[..];
    for k := 0 to |rows|
      invariant Keeps(a, dest[..], o, t)
      invariant Filled(dest[..], o, t, total, off, off + k, j, j + 16)
    {
      ghost var b := dest[..];
      StoreRow(s, dest, o, total, ts, j, off + k, rows[k]);
      MoreRows(a, b, dest[..], o, t, total, off, off + k, off + k + 1, j, j + 16);
    }
  }

  method StoreRow<T>(s: seq<T>, dest: array<T>, o: nat, total: nat, ts: nat, j: nat, c: nat, v: seq<T>)
    requires |s| == total * ts && o + |s| <= dest.Length && j + 16 <= total && c < ts && Column(s, ts, j, c, v)
    modifies dest
    ensures Keeps(old(dest[..]), dest[..], o, Transposed(s, total, ts))
    ensures Filled(dest[..], o, Transposed(s, total, ts), total, c, c + 1, j, j + 16)
  {
    RowIsRun(s, total, ts, j, c, v, Idx(c, total, j));
    Put(dest, o, Idx(c, total, j), v, Transposed(s, total, ts));
    StoredFills(dest[..], o, Transposed(s, total, ts), total, c, j, 16);
  }

  // ---------------------------------------------------------------------------
  // Unshuffle kernels: the element bytes come out in order once the registers are stored in the
  // order of their reversed digits
  // ---------------------------------------------------------------------------

  /** The type sizes with a kernel of their own. */
  predicate Small(ts: nat) {
    ts == 2 || ts == 4 || ts == 8 || ts == 16
  }

  function Unshuffle<T>(ts: nat, f: File<T>): File<T>
    requires Small(ts)
  {
    if ts == 2 then Unshuffle2(f)
    else if ts == 4 then Unshuffle4(f)
    else if ts == 8 then Unshuffle8(f)
    else Unshuffle16(f)
  }

  /** The register that is stored as number d. */
  function StoredAs(ts: nat, d: Quad): Quad
    requires Small(ts)
  {
    if ts == 2 then d
    else if ts == 4 then Quad(false, false, d.b0, d.b1)
    else if ts == 8 then Quad(false, d.b0, d.b1, d.b2)
    else Quad(d.b0, d.b1, d.b2, d.b3)
  }

  /** The element that place q of the register stored as number d belongs to. */
  function ElementOf(ts: nat, d: Quad, q: Quad): Quad
    requires Small(ts)
  {
    if ts == 2 then Quad(d.b0, q.b3, q.b2, q.b1)
    else if ts == 4 then Quad(d.b1, d.b0, q.b3, q.b2)
    else if ts == 8 then Quad(d.b2, d.b1, d.b0, q.b3)
    else d
  }

  /** The byte of that element that the place is for. */
  function ByteOf(ts: nat, q: Quad): Quad
    requires Small(ts)
  {
    if ts == 2 then Quad(false, false, false, q.b0)
    else if ts == 4 then Quad(false, false, q.b1, q.b0)
    else if ts == 8 then Quad(false, q.b2, q.b1, q.b0)
    else q
  }

  lemma Place2(d: Quad, q: Quad)
    requires Num(d) < 2
    ensures 16 * Num(d) + Num(q) == 2 * Num(ElementOf(2, d, q)) + Num(ByteOf(2, q))
  {
  }

  lemma Unshuffle2Right<T>(xs: seq<seq<T>>, d: Quad, q: Quad)
    requires Regs(xs) && |xs| == 2 && Num(d) < 2
    ensures Num(ByteOf(2, q)) < 2
    ensures Unshuffle2(Loaded(xs))(StoredAs(2, d), q) == xs[Num(ByteOf(2, q))][Num(ElementOf(2, d, q))]
  {
    Unshuffle2At(Loaded(xs), StoredAs(2, d), q);
  }

  lemma Place4(d: Quad, q: Quad)
    requires Num(d) < 4
    ensures 16 * Num(d) + Num(q) == 4 * Num(ElementOf(4, d, q)) + Num(ByteOf(4, q))
  {
  }

  lemma Unshuffle4Right<T>(xs: seq<seq<T>>, d: Quad, q: Quad)
    requires Regs(xs) && |xs| == 4 && Num(d) < 4
    ensures Num(ByteOf(4, q)) < 4
    ensures Unshuffle4(Loaded(xs))(StoredAs(4, d), q) == xs[Num(ByteOf(4, q))][Num(ElementOf(4, d, q))]
  {
    Unshuffle4At(Loaded(xs), StoredAs(4, d), q);
  }

  lemma Place8(d: Quad, q: Quad)
    requires Num(d) < 8
    ensures 16 * Num(d) + Num(q) == 8 * Num(ElementOf(8, d, q)) + Num(ByteOf(8, q))
  {
  }

  lemma Unshuffle8Right<T>(xs: seq<seq<T>>, d: Quad, q: Quad)
    requires Regs(xs) && |xs| == 8 && Num(d) < 8
    ensures Num(ByteOf(8, q)) < 8
    ensures Unshuffle8(Loaded(xs))(StoredAs(8, d), q) == xs[Num(ByteOf(8, q))][Num(ElementOf(8, d, q))]
  {
    Unshuffle8At(Loaded(xs), StoredAs(8, d), q);
  }

  lemma Place16(d: Quad, q: Quad)
    requires Num(d) < 16
    ensures 16 * Num(d) + Num(q) == 16 * Num(ElementOf(16, d, q)) + Num(ByteOf(16, q))
  {
  }

  lemma Unshuffle16Right<T>(xs: seq<seq<T>>, d: Quad, q: Quad)
    requires Regs(xs) && |xs| == 16 && Num(d) < 16
    ensures Num(ByteOf(16, q)) < 16
    ensures Unshuffle16(Loaded(xs))(StoredAs(16, d), q) == xs[Num(ByteOf(16, q))][Num(ElementOf(16, d, q))]
  {
    Unshuffle16At(Loaded(xs), StoredAs(16, d), q);
  }

  lemma UnshuffleRight<T>(ts: nat, xs: seq<seq<T>>, d: Quad, q: Quad)
    requires Small(ts) && Regs(xs) && |xs| == ts && Num(d) < ts
    ensures Num(ByteOf(ts, q)) < ts && IsPlace(ts, Num(ElementOf(ts, d, q)), Num(ByteOf(ts, q)), 16 * Num(d) + Num(q))
    ensures Unshuffle(ts, Loaded(xs))(StoredAs(ts, d), q) == xs[Num(ByteOf(ts, q))][Num(ElementOf(ts, d, q))]
  {
    if ts == 2 {
      Place2(d, q);
      Unshuffle2Right(xs, d, q);
    } else if ts == 4 {
      Place4(d, q);
      Unshuffle4Right(xs, d, q);
    } else if ts == 8 {
      Place8(d, q);
      Unshuffle8Right(xs, d, q);
    } else {
      Place16(d, q);
      Unshuffle16Right(xs, d, q);
    }
  }
}
