/** Splitting ranges of ASCII strings. A string is the sequence of its character codes. */
module StringRanges {
  import opened Values

  type ascii = c: nat | c < 128

  /** Lexicographic order, as std::string compares. */
  predicate Less(a: seq<ascii>, b: seq<ascii>) {
    if b == [] then false
    else if a == [] then true
    else if a[0] != b[0] then a[0] < b[0]
    else Less(a[1..], b[1..])
  }

  predicate AtMost(a: seq<ascii>, b: seq<ascii>) {
    a == b || Less(a, b)
  }

  /** common_prefix_size. */
  method CommonPrefixSize(a: seq<ascii>, b: seq<ascii>) returns (p: nat)
    ensures p == Common(a, b)
  {
    var size := if |a| < |b| then |a| else |b|;
    for i := 0 to size
      invariant a[..i] == b[..i]
    {
      if a[i] != b[i] {
        CommonIs(a, b, i);
        return i;
      }
    }
    CommonIs(a, b, size);
    return size;
  }

  function Common(a: seq<ascii>, b: seq<ascii>): (p: nat)
    ensures p <= |a| && p <= |b|
  {
    if a == [] || b == [] || a[0] != b[0] then 0 else 1 + Common(a[1..], b[1..])
  }

  lemma {:induction false} CommonAgrees(a: seq<ascii>, b: seq<ascii>)
    ensures var p := Common(a, b); a[..p] == b[..p] && (p < |a| && p < |b| ==> a[p] != b[p])
  {
    if a == [] || b == [] || a[0] != b[0] {
    } else {
      CommonAgrees(a[1..], b[1..]);
      var p := Common(a, b);
      assert a[..p] == [a[0]] + a[1..][..p - 1] && b[..p] == [b[0]] + b[1..][..p - 1];
    }
  }

  lemma {:induction false} CommonIs(a: seq<ascii>, b: seq<ascii>, p: nat)
    requires p <= |a| && p <= |b| && a[..p] == b[..p] && (p < |a| && p < |b| ==> a[p] != b[p])
    ensures Common(a, b) == p
    decreases p
  {
    if p > 0 {
      assert a[0] == a[..p][0] == b[..p][0] == b[0];
      assert a[1..][..p - 1] == a[..p][1..] && b[1..][..p - 1] == b[..p][1..];
      CommonIs(a[1..], b[1..], p - 1);
    }
  }

  /** The first difference decides. */
  lemma {:induction false} LessIs(a: seq<ascii>, b: seq<ascii>)
    ensures var p := Common(a, b); Less(a, b) <==> p < |b| && (p == |a| || a[p] < b[p])
  {
    if a == [] || b == [] || a[0] != b[0] {
    } else {
      LessIs(a[1..], b[1..]);
    }
  }

  lemma LessAt(a: seq<ascii>, b: seq<ascii>, p: nat)
    requires p <= |a| && p < |b| && a[..p] == b[..p] && (p == |a| || a[p] < b[p])
    ensures Less(a, b)
  {
    CommonIs(a, b, p);
    LessIs(a, b);
  }

  lemma {:induction false} Total(a: seq<ascii>, b: seq<ascii>)
    ensures Less(a, b) || a == b || Less(b, a)
    ensures !(Less(a, b) && Less(b, a)) && !Less(a, a)
  {
    if a != [] && b != [] && a[0] == b[0] {
      Total(a[1..], b[1..]);
      assert a == [a[0]] + a[1..] && b == [b[0]] + b[1..];
    }
    if a != [] {
      Total(a[1..], a[1..]);
    }
  }

  lemma {:induction false} Trans(a: seq<ascii>, b: seq<ascii>, c: seq<ascii>)
    requires Less(a, b) && Less(b, c)
    ensures Less(a, c)
  {
    if a != [] && a[0] == b[0] && b[0] == c[0] {
      Trans(a[1..], b[1..], c[1..]);
    }
  }

  // ---------------------------------------------------------------------------
  // Splitting
  // ---------------------------------------------------------------------------

  datatype Range = Range(start: seq<ascii>, end: seq<ascii>)

  /** A range that is not empty; an empty start stands for a range of fixed size and does not occur. */
  ghost predicate Valid(r: Range) {
    r.start != [] && AtMost(r.start, r.end)
  }

  ghost predicate In(s: seq<ascii>, r: Range) {
    AtMost(r.start, s) && AtMost(s, r.end)
  }

  /** The character at position p; past the end it reads as zero. */
  function CharAt(s: seq<ascii>, p: nat): nat
    requires p <= |s|
  {
    if p < |s| then s[p] else 0
  }

  /** splitting_value: None when the range is unsplittable. */
  function SplittingValue(r: Range): Option<seq<ascii>>
    requires Valid(r)
  {
    if r.start == r.end then None else
      var p := Common(r.start, r.end);
      var e := CharAt(r.end, p);
      if e == 0 then None else
        var c := CharAt(r.start, p);
        Parts(r);
        var s := r.start[..p] + [c + (e - c) / 2];
        Some(if Less(s, r.start) then r.start else s)
  }

  /** split_range. */
  function SplitRange(r: Range, v: seq<ascii>): (Range, Range)
    requires CharAt(v, Common(v, r.end)) + 1 < 128
  {
    var p := Common(v, r.end);
    (Range(r.start, v), Range(v[..p] + [CharAt(v, p) + 1], r.end))
  }

  /** The place where start and end of a range part, and how far apart their characters are there. */
  ghost function Place(r: Range): (p: nat)
    ensures p <= |r.end|
  {
    Common(r.start, r.end)
  }

  ghost function Gap(r: Range): int {
    CharAt(r.end, Place(r)) - CharAt(r.start, Place(r))
  }

  /** A proper range: its start and end part inside the end, upwards. */
  lemma Parts(r: Range)
    requires Valid(r) && r.start != r.end
    ensures var p := Place(r); p < |r.end| && r.start[..p] == r.end[..p] && (p == |r.start| || r.start[p] < r.end[p])
    ensures Gap(r) >= 0
  {
    LessIs(r.start, r.end);
    CommonAgrees(r.start, r.end);
  }

  /** What the splitting value of a proper range looks like. */
  lemma ValueIs(r: Range)
    requires Valid(r) && r.start != r.end && SplittingValue(r).Some?
    ensures var p := Place(r); var v := SplittingValue(r).value; var m := CharAt(r.start, p) + Gap(r) / 2;
            && Gap(r) > 0 && p < |v| && v[..p] == r.end[..p] && v[p] == m < r.end[p]
            && (|v| == p + 1 || v == r.start) && AtMost(r.start, v)
  {
    var p := Place(r);
    var v := SplittingValue(r).value;
    Parts(r);
    var s := r.start[..p] + [CharAt(r.start, p) + Gap(r) / 2];
    Total(s, r.start);
    if Less(s, r.start) {
      LessIs(s, r.start);
      CommonAgrees(s, r.start);
      if p == |r.start| {
        LessAt(r.start, s, p);
      } else if s[p] > r.start[p] {
        LessAt(r.start, s, p);
      }
    }
  }

  /** The character of the splitting value is in the middle: as far from the character of the end as from that of the
      start, or one further. */
  lemma SplitsInTheMiddle(r: Range)
    requires Valid(r) && SplittingValue(r).Some?
    ensures var v := SplittingValue(r).value; var p := Common(r.start, r.end);
            && p < |v| && p < |r.end| && v[..p] == r.end[..p]
            && 0 <= (r.end[p] - v[p]) - (v[p] - CharAt(r.start, p)) <= 1
  {
    Parts(r);
    ValueIs(r);
  }

  /** A range cannot be split exactly when it is a single string or its end continues its start with the
      character zero. */
  lemma UnsplittableIff(r: Range)
    requires Valid(r)
    ensures SplittingValue(r).None? <==>
              r.start == r.end || (|r.start| < |r.end| && r.end[..|r.start|] == r.start && r.end[|r.start|] == 0)
  {
    if r.start != r.end {
      Parts(r);
      if |r.start| < |r.end| && r.end[..|r.start|] == r.start {
        Common1(r.start, r.end);
      }
    }
  }

  /** The range is split between two characters. */
  lemma SplitIs(r: Range)
    requires Valid(r) && SplittingValue(r).Some?
    ensures var p := Place(r); var v := SplittingValue(r).value;
            && r.start != r.end && p < |v| && p < |r.end| && v[p] < r.end[p] && Common(v, r.end) == p
            && SplitRange(r, v) == (Range(r.start, v), Range(v[..p] + [v[p] + 1], r.end))
  {
    var p := Place(r);
    var v := SplittingValue(r).value;
    Parts(r);
    ValueIs(r);
    CommonIs(v, r.end, p);
  }

  /** Both parts are non-empty ranges inside the range, and the first ends before the second starts. */
  lemma SplitIsProper(r: Range)
    requires Valid(r) && SplittingValue(r).Some?
    ensures var v := SplittingValue(r).value;
            CharAt(v, Common(v, r.end)) + 1 < 128 && var (r1, r2) := SplitRange(r, v);
            && Valid(r1) && Valid(r2)
            && r1.start == r.start && r2.end == r.end && Less(r1.end, r2.start)
            && AtMost(r.start, r2.start) && AtMost(r1.end, r.end)
  {
    var p, v := Place(r), SplittingValue(r).value;
    SplitIs(r);
    ValueIs(r);
    var w := v[..p] + [v[p] + 1];
    LessAt(v, w, p);
    LessAt(v, r.end, p);
    UpToEnd(w, r.end, p);
    if r.start != v {
      Trans(r.start, v, w);
    }
  }

  lemma UpToEnd(w: seq<ascii>, e: seq<ascii>, p: nat)
    requires |w| == p + 1 <= |e| && w[..p] == e[..p] && w[p] <= e[p]
    ensures AtMost(w, e)
  {
    if w[p] < e[p] {
      LessAt(w, e, p);
    } else if |e| > p + 1 {
      assert w == e[..p + 1];
      LessAt(w, e, p + 1);
    } else {
      assert w == e;
    }
  }

  lemma NotAtMost(a: seq<ascii>, b: seq<ascii>)
    ensures !AtMost(a, b) <==> Less(b, a)
  {
    Total(a, b);
  }

  lemma InNeither(s: seq<ascii>, r: Range, v: seq<ascii>, w: seq<ascii>)
    requires In(s, r)
    ensures !In(s, Range(r.start, v)) && !In(s, Range(w, r.end)) <==> Less(v, s) && Less(s, w)
  {
    NotAtMost(s, v);
    NotAtMost(w, s);
  }

  /** The strings of the range that are in neither part are exactly those after v that begin like v up to
      and including the character where v and the end part. */
  lemma LostIff(r: Range, s: seq<ascii>, v: seq<ascii>, p: nat, r1: Range, r2: Range)
    requires Valid(r) && SplittingValue(r) == Some(v) && p == Place(r) && In(s, r)
    requires CharAt(v, Common(v, r.end)) + 1 < 128 && SplitRange(r, v) == (r1, r2)
    ensures p < |v|
    ensures !In(s, r1) && !In(s, r2) <==> Less(v, s) && |s| > p && s[..p + 1] == v[..p + 1]
  {
    SplitIs(r);
    var w := v[..p] + [v[p] + 1];
    InNeither(s, r, v, w);
    if Less(v, s) {
      Between(v, w, p, s);
    }
  }

  /** The strings from v up to the string that raises its character p. */
  lemma Between(v: seq<ascii>, w: seq<ascii>, p: nat, s: seq<ascii>)
    requires p < |v| && v[p] < 127 && w == v[..p] + [v[p] + 1] && Less(v, s)
    ensures Less(s, w) <==> |s| > p && s[..p + 1] == v[..p + 1]
  {
    var q := Common(v, s);
    LessIs(v, s);
    CommonAgrees(v, s);
    if q > p {
      assert s[..p + 1] == s[..q][..p + 1] == v[..q][..p + 1] == v[..p + 1];
      assert s[..p] == s[..p + 1][..p] == w[..p] && s[p] == s[..p + 1][p];
      LessAt(s, w, p);
    } else {
      assert q < |s| && v[q] < s[q];
      assert |s| > p ==> s[..p + 1][q] == s[q] && v[..p + 1][q] == v[q];
      assert w[..q] == v[..p][..q] == v[..q] == s[..q];
      NotBelow(s, w, q);
    }
  }

  lemma NotBelow(s: seq<ascii>, w: seq<ascii>, q: nat)
    requires q < |s| && q < |w| && s[..q] == w[..q] && w[q] <= s[q] && (w[q] < s[q] || |w| == q + 1)
    ensures !Less(s, w)
  {
    if w[q] < s[q] {
      CommonIs(s, w, q);
      LessIs(s, w);
    } else {
      assert s[..q + 1] == w[..q + 1];
      CommonIs(s, w, q + 1);
      LessIs(s, w);
    }
  }

  /** A string that a split loses: "ba" lies between "a" and "c", which are split into "a" to "b" and "c"
      to "c". */
  lemma LostExample()
    ensures var r := Range([97], [99]);
            Valid(r) && SplittingValue(r) == Some([98]) && In([98, 97], r)
            && var (r1, r2) := SplitRange(r, [98]); !In([98, 97], r1) && !In([98, 97], r2)
  {
    var r := Range([97], [99]);
    assert Common([97], [99]) == 0 && Common([98], [99]) == 0;
    assert r.start[..0] + [98] == [98] && [98][..0] + [99] == [99];
  }

  /** No string lies between v and v with the character zero appended. */
  lemma {:induction false} NextString(v: seq<ascii>, e: seq<ascii>)
    requires Less(v, e)
    ensures Less(v, v + [0]) && AtMost(v + [0], e)
    decreases v
  {
    var s := v + [0];
    if v != [] {
      assert s[1..] == v[1..] + [0] && s[0] == v[0];
      if v[0] == e[0] {
        NextString(v[1..], e[1..]);
        SameTail(s, e);
      } else {
        NextOwn(v);
      }
    } else if e != s {
      assert s[1..] == [];
      assert e[0] == 0 ==> e[1..] != [];
    }
  }

  lemma {:induction false} NextOwn(v: seq<ascii>)
    ensures Less(v, v + [0])
  {
    if v != [] {
      assert (v + [0])[1..] == v[1..] + [0];
      NextOwn(v[1..]);
    }
  }

  lemma SameTail(a: seq<ascii>, b: seq<ascii>)
    requires a != [] && b != [] && a[0] == b[0] && AtMost(a[1..], b[1..])
    ensures AtMost(a, b)
  {
    if a[1..] == b[1..] {
      assert a == [a[0]] + a[1..] && b == [b[0]] + b[1..];
    }
  }

  lemma NextIsInside(r: Range, v: seq<ascii>)
    requires Valid(r) && SplittingValue(r) == Some(v)
    ensures In(v + [0], r) && Less(v, v + [0]) && Place(r) < |v|
  {
    SplitIs(r);
    ValueIs(r);
    LessAt(v, r.end, Place(r));
    NextString(v, r.end);
    if r.start != v {
      Trans(r.start, v, v + [0]);
    }
  }

  /** Every split loses a string: the splitting value with the character zero appended. */
  lemma EverySplitLoses(r: Range, v: seq<ascii>, r1: Range, r2: Range)
    requires Valid(r) && SplittingValue(r) == Some(v)
    requires CharAt(v, Common(v, r.end)) + 1 < 128 && SplitRange(r, v) == (r1, r2)
    ensures In(v + [0], r) && !In(v + [0], r1) && !In(v + [0], r2)
  {
    var p, s := Place(r), v + [0];
    NextIsInside(r, v);
    assert s[..p + 1] == v[..p + 1];
    LostIff(r, s, v, p, r1, r2);
  }

  // ---------------------------------------------------------------------------
  // Splitting ends
  // ---------------------------------------------------------------------------

  /** Either part has a shorter remaining end than the range, or as long a one and a smaller gap. */
  lemma SplitShrinks(r: Range)
    requires Valid(r) && SplittingValue(r).Some?
    ensures var v := SplittingValue(r).value;
            CharAt(v, Common(v, r.end)) + 1 < 128 && var (r1, r2) := SplitRange(r, v);
            && (r1.start == r1.end || Smaller(r1, r))
            && (r2.start == r2.end || Smaller(r2, r))
  {
    var p, v := Place(r), SplittingValue(r).value;
    SplitIs(r);
    ValueIs(r);
    Parts(r);
    if v != r.start {
      FirstPart(r, v, p);
    }
    var w := v[..p] + [v[p] + 1];
    if w != r.end {
      SecondPart(r, w, p);
    }
  }

  /** The measure of a range, in lexicographic order. */
  ghost predicate Smaller(a: Range, b: Range) {
    var x, y := |a.end| - Place(a), |b.end| - Place(b);
    x < y || (x == y && Gap(a) < Gap(b))
  }

  lemma FirstPart(r: Range, v: seq<ascii>, p: nat)
    requires Valid(r) && r.start != r.end && p == Place(r) && Gap(r) > 0
    requires |v| == p + 1 && v[..p] == r.end[..p] && v[p] == CharAt(r.start, p) + Gap(r) / 2 && v != r.start &&
             AtMost(r.start, v)
    ensures Smaller(Range(r.start, v), r)
  {
    Parts(r);
    if p < |r.start| && r.start[p] == v[p] {
      assert r.start[..p + 1] == v;
      if |r.start| > p + 1 {
        LessAt(v, r.start, p + 1);
        Total(v, r.start);
      }
    } else {
      CommonIs(r.start, v, p);
    }
  }

  lemma SecondPart(r: Range, w: seq<ascii>, p: nat)
    requires Valid(r) && r.start != r.end && p == Place(r) && Gap(r) > 0
    requires |w| == p + 1 <= |r.end| && w[..p] == r.end[..p] && CharAt(r.start, p) < w[p] <= r.end[p]
    ensures Smaller(Range(w, r.end), r)
  {
    if w[p] < r.end[p] {
      CommonIs(w, r.end, p);
    } else {
      assert w == r.end[..p + 1];
      Common1(w, r.end);
    }
  }

  lemma Common1(w: seq<ascii>, e: seq<ascii>)
    requires |w| <= |e| && w == e[..|w|]
    ensures Common(w, e) == |w|
  {
    CommonIs(w, e, |w|);
  }

  /** Splitting a range, and then its parts, as long as they can be split. */
  ghost function SplitAll(r: Range): (leaves: seq<Range>)
    requires Valid(r)
    decreases if r.start == r.end then 0 else |r.end| - Place(r), if r.start == r.end then 0 else Gap(r) + 1
  {
    if SplittingValue(r).None? then [r] else
      var v := SplittingValue(r).value;
      SplitIsProper(r);
      SplitShrinks(r);
      Parts(r);
      ValueIs(r);
      var (r1, r2) := SplitRange(r, v);
      SplitAll(r1) + SplitAll(r2)
  }

  /** Ranges one after the other. */
  ghost predicate Ordered(s: seq<Range>) {
    forall i, j :: 0 <= i < j < |s| ==> Less(s[i].end, s[j].start)
  }

  /** Repeated splitting ends, in unsplittable, disjoint, ordered ranges inside the range. */
  lemma {:induction false} SplitAllEnds(r: Range)
    requires Valid(r)
    ensures SplitAll(r) != [] && Ordered(SplitAll(r))
    ensures forall i :: 0 <= i < |SplitAll(r)| ==>
              var l := SplitAll(r)[i];
              Valid(l) && SplittingValue(l).None? && AtMost(r.start, l.start) && AtMost(l.end, r.end)
    decreases if r.start == r.end then 0 else |r.end| - Place(r), if r.start == r.end then 0 else Gap(r) + 1
  {
    if SplittingValue(r).Some? {
      var v := SplittingValue(r).value;
      SplitIsProper(r);
      SplitShrinks(r);
      Parts(r);
      ValueIs(r);
      var (r1, r2) := SplitRange(r, v);
      SplitAllEnds(r1);
      SplitAllEnds(r2);
      JoinOrdered(SplitAll(r1), SplitAll(r2), r, r1, r2);
    }
  }

  lemma AtMostTrans(a: seq<ascii>, b: seq<ascii>, c: seq<ascii>)
    requires AtMost(a, b) && AtMost(b, c)
    ensures AtMost(a, c)
  {
    if a != b && b != c {
      Trans(a, b, c);
    }
  }

  lemma LessBetween(a: seq<ascii>, b: seq<ascii>, c: seq<ascii>, d: seq<ascii>)
    requires AtMost(a, b) && Less(b, c) && AtMost(c, d)
    ensures Less(a, d)
  {
    if a != b {
      Trans(a, b, c);
    }
    if c != d {
      Trans(a, c, d);
    }
  }

  ghost predicate Inside(s: seq<Range>, r: Range) {
    forall i :: 0 <= i < |s| ==> AtMost(r.start, s[i].start) && AtMost(s[i].end, r.end)
  }

  lemma JoinOrdered(s: seq<Range>, t: seq<Range>, r: Range, r1: Range, r2: Range)
    requires Ordered(s) && Ordered(t) && Inside(s, r1) && Inside(t, r2)
    requires r1.start == r.start && r2.end == r.end && Less(r1.end, r2.start)
    requires AtMost(r.start, r2.start) && AtMost(r1.end, r.end)
    ensures Ordered(s + t) && Inside(s + t, r)
  {
    forall i, j | 0 <= i < j < |s + t|
      ensures Less((s + t)[i].end, (s + t)[j].start)
    {
      if i < |s| <= j {
        LessBetween(s[i].end, r1.end, r2.start, t[j - |s|].start);
      }
    }
    forall i | 0 <= i < |s + t|
      ensures AtMost(r.start, (s + t)[i].start) && AtMost((s + t)[i].end, r.end)
    {
      if i < |s| {
        AtMostTrans(s[i].end, r1.end, r.end);
      } else {
        AtMostTrans(r.start, r2.start, t[i - |s|].start);
      }
    }
  }

  /** A string in a leaf is in the range. */
  lemma LeafInside(r: Range, i: nat, s: seq<ascii>)
    requires Valid(r) && i < |SplitAll(r)| && In(s, SplitAll(r)[i])
    ensures In(s, r)
  {
    SplitAllEnds(r);
    var l := SplitAll(r)[i];
    AtMostTrans(r.start, l.start, s);
    AtMostTrans(s, l.end, r.end);
  }

  ghost predicate InLeaf(s: seq<ascii>, r: Range)
    requires Valid(r)
  {
    exists i :: 0 <= i < |SplitAll(r)| && In(s, SplitAll(r)[i])
  }

  /** The leaves of repeated splitting cover the range only if it was not split at all. */
  lemma LeavesCoverIff(r: Range)
    requires Valid(r)
    ensures (forall s {:trigger In(s, r)} :: In(s, r) ==> InLeaf(s, r)) <==> SplittingValue(r).None?
  {
    if SplittingValue(r).None? {
      forall s | In(s, r)
        ensures InLeaf(s, r)
      {
        assert SplitAll(r)[0] == r;
      }
    } else {
      LostForGood(r);
    }
  }

  lemma LostForGood(r: Range)
    requires Valid(r) && SplittingValue(r).Some?
    ensures In(SplittingValue(r).value + [0], r) && !InLeaf(SplittingValue(r).value + [0], r)
  {
    var v := SplittingValue(r).value;
    SplitIsProper(r);
    var (r1, r2) := SplitRange(r, v);
    var s := v + [0];
    EverySplitLoses(r, v, r1, r2);
    if i :| 0 <= i < |SplitAll(r)| && In(s, SplitAll(r)[i]) {
      if i < |SplitAll(r1)| {
        LeafInside(r1, i, s);
      } else {
        LeafInside(r2, i - |SplitAll(r1)|, s);
      }
    }
  }
}
