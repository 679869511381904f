/** A buffer processed block by block: what it becomes, for any function of blocks that keeps
    their length, and the round trip for two such functions that undo each other. */
module BlockedRuns {

  type Work<!T> = seq<T> -> seq<T>

  /** g keeps the length of blocks of w. */
  ghost predicate Keeps<T(!new)>(g: Work<T>, w: nat) {
    forall u: seq<T> {:trigger g(u)} :: |u| == w ==> |g(u)| == w
  }

  /** h undoes g on blocks of w. */
  ghost predicate Undoes<T(!new)>(h: Work<T>, g: Work<T>, w: nat) {
    forall u: seq<T> {:trigger g(u)} :: |u| == w ==> h(g(u)) == u
  }

  /** Consecutive blocks of w that cover the first x places. */
  ghost function Blocks<T(!new)>(g: Work<T>, s: seq<T>, x: nat, w: nat): (t: seq<T>)
    requires Keeps(g, w) && x <= |s|
    ensures |t| == x
    decreases x
  {
    if w == 0 || x < w then s[..x] else Blocks(g, s, x - w, w) + g(s[x - w..x])
  }

  /** One more block. */
  lemma BlocksNext<T(!new)>(g: Work<T>, s: seq<T>, x: nat, w: nat)
    requires Keeps(g, w) && x + w <= |s|
    ensures Blocks(g, s, x + w, w) == Blocks(g, s, x, w) + g(s[x..x + w])
  {
    if w == 0 {
      assert g(s[x..x]) == [];
    }
  }

  /** Only the first x places matter. */
  lemma {:induction false} BlocksPrefix<T(!new)>(g: Work<T>, s: seq<T>, s': seq<T>, x: nat, w: nat)
    requires Keeps(g, w) && x <= |s| && x <= |s'| && s[..x] == s'[..x]
    ensures Blocks(g, s, x, w) == Blocks(g, s', x, w)
    decreases x
  {
    if w == 0 || x < w {
    } else {
      var p := x - w;
      assert s[..p] == s[..x][..p] && s'[..p] == s'[..x][..p];
      assert s[p..x] == s[..x][p..] && s'[p..x] == s'[..x][p..];
      BlocksPrefix(g, s, s', p, w);
    }
  }

  lemma {:induction false} BlocksBack<T(!new)>(h: Work<T>, g: Work<T>, s: seq<T>, x: nat, w: nat)
    requires Keeps(g, w) && Keeps(h, w) && Undoes(h, g, w) && x <= |s|
    ensures Blocks(h, Blocks(g, s, x, w), x, w) == s[..x]
    decreases x
  {
    if w == 0 || x < w {
    } else {
      var p := x - w;
      var t1, t2 := Blocks(g, s, p, w), g(s[p..x]);
      var t := t1 + t2;
      BlocksBack(h, g, s, p, w);
      assert t[..p] == t1[..p] && t[p..x] == t2;
      BlocksPrefix(h, t, t1, p, w);
      assert s[..x] == s[..p] + s[p..x];
    }
  }

  /** Full blocks up to x, a shorter block up to y, and a copied rest. */
  ghost function Joined<T(!new)>(g: Work<T>, l: Work<T>, s: seq<T>, w: nat, x: nat, y: nat): (t: seq<T>)
    requires x <= y <= |s| && Keeps(g, w) && Keeps(l, y - x)
    ensures |t| == |s|
  {
    Blocks(g, s, x, w) + l(s[x..y]) + s[y..]
  }

  lemma JoinedBack<T(!new)>(h: Work<T>, g: Work<T>, m: Work<T>, l: Work<T>, s: seq<T>, w: nat, x: nat, y: nat)
    requires x <= y <= |s| && Keeps(g, w) && Keeps(h, w) && Undoes(h, g, w)
    requires Keeps(l, y - x) && Keeps(m, y - x) && Undoes(m, l, y - x)
    ensures Joined(h, m, Joined(g, l, s, w, x, y), w, x, y) == s
  {
    var t1, t2 := Blocks(g, s, x, w), l(s[x..y]);
    var t := t1 + t2 + s[y..];
    BlocksBack(h, g, s, x, w);
    assert t[..x] == t1[..x] && t[x..y] == t2 && t[y..] == s[y..];
    BlocksPrefix(h, t, t1, x, w);
    assert s == s[..x] + s[x..y] + s[y..];
  }

  /** The place where the block after k blocks of w starts: k * w. */
  ghost function Off(k: nat, w: nat): (x: nat) {
    if k == 0 then 0 else Off(k - 1, w) + w
  }

  lemma {:induction false} OffIs(k: nat, w: nat)
    ensures Off(k, w) == k * w
  {
    if k == 0 {
    } else {
      OffIs(k - 1, w);
      assert k * w == (k - 1) * w + w;
    }
  }

  lemma {:induction false} OffGrows(j: nat, k: nat, w: nat)
    requires j <= k
    ensures Off(j, w) <= Off(k, w)
  {
    if j < k {
      OffGrows(j, k - 1, w);
    }
  }

  /** Block q of k blocks is what g makes of it, and it stays in its place. */
  lemma {:induction false} BlockAt<T(!new)>(g: Work<T>, s: seq<T>, k: nat, w: nat, q: nat)
    requires Keeps(g, w) && q < k && Off(k, w) <= |s|
    ensures Off(q, w) + w <= Off(k, w)
    ensures Blocks(g, s, Off(k, w), w)[Off(q, w)..Off(q, w) + w] == g(s[Off(q, w)..Off(q, w) + w])
  {
    var x, o := Off(k - 1, w), Off(q, w);
    if q < k - 1 {
      BlockAt(g, s, k - 1, w, q);
      BlockKept(g, s, x, w, o);
    } else {
      LastBlockAt(g, s, x, w);
    }
  }

  lemma BlockKept<T(!new)>(g: Work<T>, s: seq<T>, x: nat, w: nat, o: nat)
    requires Keeps(g, w) && x + w <= |s| && o + w <= x
    ensures Blocks(g, s, x + w, w)[o..o + w] == Blocks(g, s, x, w)[o..o + w]
  {
    BlocksNext(g, s, x, w);
    SliceOfFirst(Blocks(g, s, x, w), g(s[x..x + w]), o, o + w);
  }

  lemma LastBlockAt<T(!new)>(g: Work<T>, s: seq<T>, x: nat, w: nat)
    requires Keeps(g, w) && x + w <= |s|
    ensures Blocks(g, s, x + w, w)[x..x + w] == g(s[x..x + w])
  {
    BlocksNext(g, s, x, w);
    SliceOfLast(Blocks(g, s, x, w), g(s[x..x + w]), x, x + w);
  }

  lemma SliceOfLast<T>(t: seq<T>, u: seq<T>, a: nat, b: nat)
    requires a == |t| && b == a + |u|
    ensures (t + u)[a..b] == u
  {
  }

  lemma SliceOfFirst<T>(t: seq<T>, u: seq<T>, a: nat, b: nat)
    requires a <= b <= |t|
    ensures (t + u)[a..b] == t[a..b]
  {
  }

  /** The parts of the result. */
  lemma JoinedAt<T(!new)>(g: Work<T>, l: Work<T>, s: seq<T>, w: nat, x: nat, y: nat)
    requires x <= y <= |s| && Keeps(g, w) && Keeps(l, y - x)
    ensures var t := Joined(g, l, s, w, x, y);
            t[..x] == Blocks(g, s, x, w) && t[x..y] == l(s[x..y]) && t[y..] == s[y..]
  {
  }
}
