/** A list of buffers that is read as if it were one buffer. */
module BufferLists {
  import opened Values

  datatype Status = Ok | BufferError

  class Buffer {
    const data: seq<byte>
    var offset: nat

    constructor (data: seq<byte>)
      ensures this.data == data && offset == 0
    {
      this.data := data;
      offset := 0;
    }

    method SetOffset(offset: nat)
      modifies this`offset
      ensures this.offset == offset
    {
      this.offset := offset;
    }

    /** Copies n bytes from the offset to dest, or refuses to read beyond the end. */
    method Read(dest: array<byte>, at: nat, n: nat) returns (status: Status)
      requires at + n <= dest.Length
      modifies this`offset, dest
      ensures status == Ok <==> old(offset) + n <= |data|
      ensures status == Ok ==>
        && offset == old(offset) + n
        && dest[..] == old(dest[..at]) + data[old(offset)..old(offset) + n] + old(dest[at + n..])
      ensures status != Ok ==> offset == old(offset) && dest[..] == old(dest[..])
    {
      if n + offset > |data| {
        return BufferError;
      }
      forall i | 0 <= i < n {
        dest[at + i] := data[offset + i];
      }
      offset := offset + n;
      status := Ok;
    }
  }

  // ---------------------------------------------------------------------------
  // The contents
  // ---------------------------------------------------------------------------

  /** The bytes of the first i buffers, one after the other. */
  ghost function Before(buffers: seq<Buffer>, i: nat): seq<byte>
    requires i <= |buffers|
  {
    if i == 0 then [] else Before(buffers, i - 1) + buffers[i - 1].data
  }

  ghost function Contents(buffers: seq<Buffer>): seq<byte> {
    Before(buffers, |buffers|)
  }

  lemma {:induction false} BeforeIsPrefix(buffers: seq<Buffer>, i: nat, j: nat)
    requires i <= j <= |buffers|
    ensures |Before(buffers, i)| <= |Before(buffers, j)|
    ensures Before(buffers, i) == Before(buffers, j)[..|Before(buffers, i)|]
    decreases j
  {
    if i < j {
      BeforeIsPrefix(buffers, i, j - 1);
    }
  }

  lemma {:induction false} BeforeOf(buffers: seq<Buffer>, more: seq<Buffer>, i: nat)
    requires i <= |buffers|
    ensures Before(buffers + more, i) == Before(buffers, i)
  {
    if i > 0 {
      BeforeOf(buffers, more, i - 1);
    }
  }

  lemma SubSlice(s: seq<byte>, t: seq<byte>, start: nat, from: nat, to: nat)
    requires t <= s && from <= to && start + to <= |t|
    ensures t[start..][from..to] == s[start + from..start + to]
  {
  }

  /** A slice of one buffer is a slice of the contents. */
  lemma SliceOfContents(buffers: seq<Buffer>, i: nat, from: nat, to: nat)
    requires i < |buffers| && from <= to <= |buffers[i].data|
    ensures |Before(buffers, i)| + to <= |Contents(buffers)|
    ensures buffers[i].data[from..to] ==
            Contents(buffers)[|Before(buffers, i)| + from..|Before(buffers, i)| + to]
  {
    BeforeIsPrefix(buffers, i + 1, |buffers|);
    var start, through := |Before(buffers, i)|, Before(buffers, i + 1);
    assert through[start..] == buffers[i].data;
    SubSlice(Contents(buffers), through, start, from, to);
  }

  // ---------------------------------------------------------------------------
  // One read
  // ---------------------------------------------------------------------------

  /** A read of n bytes at a position of the contents. A satisfied read gives the next n bytes; a
      short one gives all that is left and goes back to the start of the last buffer. */
  ghost predicate Reads(all: seq<byte>, lastStart: nat, pos: nat, n: nat, out: seq<byte>, next: nat) {
    && pos <= |all|
    && if pos + n <= |all|
       then out == all[pos..pos + n] && next == pos + n
       else out == all[pos..] && next == lastStart
  }

  /** The next part of the contents, written after what is there. */
  lemma Spliced(all: seq<byte>, pos: nat, was: seq<byte>, now: seq<byte>, part: seq<byte>, at: nat, next: seq<byte>)
    requires |was| == |now| && at + |part| <= |now| && pos + at + |part| <= |all|
    requires now[..at] == all[pos..pos + at] && part == all[pos + at..pos + at + |part|] && now[at..] == was[at..]
    requires next == now[..at] + part + now[at + |part|..]
    ensures next[..at + |part|] == all[pos..pos + at + |part|] && next[at + |part|..] == was[at + |part|..]
  {
    assert now[at + |part|..] == now[at..][|part|..];
  }

  class BufferList {
    var buffers: seq<Buffer>
    var currentIndex: nat
    var currentOffset: nat

    ghost predicate Valid()
      reads this
    {
      if buffers == [] then currentIndex == 0 && currentOffset == 0
      else currentIndex < |buffers| && currentOffset <= |buffers[currentIndex].data|
    }

    ghost function All(): seq<byte>
      reads this
    {
      Contents(buffers)
    }

    ghost function Position(): nat
      requires Valid()
      reads this
    {
      |Before(buffers, currentIndex)| + currentOffset
    }

    ghost function LastStart(): nat
      reads this
    {
      if buffers == [] then 0 else |Before(buffers, |buffers| - 1)|
    }

    constructor ()
      ensures Valid() && buffers == [] && All() == [] && Position() == 0
    {
      buffers, currentIndex, currentOffset := [], 0, 0;
    }

    method AddBuffer(b: Buffer)
      requires Valid()
      modifies this`buffers
      ensures Valid() && buffers == old(buffers) + [b]
      ensures All() == old(All()) + b.data && Position() == old(Position())
    {
      BeforeOf(buffers, [b], |buffers|);
      BeforeOf(buffers, [b], currentIndex);
      buffers := buffers + [b];
    }

    method ResetOffset()
      requires Valid()
      modifies this`currentIndex, this`currentOffset
      ensures Valid() && Position() == 0
    {
      currentIndex, currentOffset := 0, 0;
    }

    method TotalSize() returns (size: nat)
      ensures size == |All()|
    {
      size := 0;
      for i := 0 to |buffers|
        invariant size == |Before(buffers, i)|
      {
        size := size + |buffers[i].data|;
      }
    }

    /** With idx the next buffer to read, the loop has done `at` bytes from pos and `left` are left. */
    ghost predicate Progress(idx: nat, pos: nat, at: nat, left: nat)
      reads this
    {
      && Valid() && currentIndex <= idx <= |buffers|
      && if left == 0 then Position() == pos + at
         else |Before(buffers, idx)| + currentOffset == pos + at &&
              if idx < |buffers| then currentOffset <= |buffers[idx].data| else Position() == LastStart()
    }

    lemma Begun(nbytes: nat)
      requires Valid()
      ensures Progress(currentIndex, Position(), 0, nbytes) && Position() <= |All()|
    {
      if buffers != [] {
        BeforeIsPrefix(buffers, currentIndex + 1, |buffers|);
      }
    }

    /** The first `at` bytes of dest are those of the contents from pos, the others as they were. */
    ghost predicate Copied(dest: array<byte>, pos: nat, at: nat, was: seq<byte>)
      reads this, dest
    {
      && |was| == dest.Length && at <= dest.Length && pos + at <= |All()|
      && dest[..at] == All()[pos..pos + at] && dest[at..] == was[at..]
    }

    /** Copies the next n bytes, which buffer idx has. */
    method CopyFrom(idx: nat, dest: array<byte>, at: nat, n: nat, ghost pos: nat, ghost was: seq<byte>)
      returns (status: Status)
      requires idx < |buffers| && currentOffset + n <= |buffers[idx].data| && at + n <= dest.Length
      requires pos + at == |Before(buffers, idx)| + currentOffset
      requires Copied(dest, pos, at, was)
      modifies buffers`offset, dest
      ensures status == Ok
      ensures Copied(dest, pos, at + n, was)
    {
      var src := buffers[idx];
      src.SetOffset(currentOffset);
      ghost var now, part := dest[..], src.data[currentOffset..currentOffset + n];
      SliceOfContents(buffers, idx, currentOffset, currentOffset + n);
      status := src.Read(dest, at, n);
      Spliced(All(), pos, was, now, part, at, dest[..]);
    }

    /** One turn of the loop: as many bytes as buffer idx has and the request needs. */
    method ReadFrom(idx: nat, dest: array<byte>, at: nat, left: nat, ghost pos: nat, ghost was: seq<byte>)
      returns (status: Status, n: nat)
      requires idx < |buffers| && 0 < left && at + left <= dest.Length && Progress(idx, pos, at, left)
      requires Copied(dest, pos, at, was)
      modifies this`currentIndex, this`currentOffset, buffers`offset, dest
      ensures status == Ok && n <= left && Progress(idx + 1, pos, at + n, left - n)
      ensures Copied(dest, pos, at + n, was)
    {
      var inSrc := |buffers[idx].data| - currentOffset;
      n := if inSrc < left then inSrc else left;
      status := CopyFrom(idx, dest, at, n, pos, was);
      currentIndex := idx;
      currentOffset := currentOffset + n;
      if left - n > 0 {
        currentOffset := 0;
      }
    }

    /** The loop over the buffers, from the current one on. */
    method ReadLoop(dest: array<byte>, nbytes: nat, ghost pos: nat, ghost was: seq<byte>)
      returns (idx: nat, left: nat)
      requires nbytes <= dest.Length && Progress(currentIndex, pos, 0, nbytes) && Copied(dest, pos, 0, was)
      modifies this`currentIndex, this`currentOffset, buffers`offset, dest
      ensures left <= nbytes && Progress(idx, pos, nbytes - left, left) && (idx == |buffers| || left == 0)
      ensures Copied(dest, pos, nbytes - left, was)
    {
      idx, left := currentIndex, nbytes;
      var at: nat := 0;
      while idx < |buffers| && left > 0
        invariant idx <= |buffers| && at + left == nbytes && Progress(idx, pos, at, left)
        invariant Copied(dest, pos, at, was)
      {
        var _, n := ReadFrom(idx, dest, at, left, pos, was);
        left, at, idx := left - n, at + n, idx + 1;
      }
    }

    /** The loop ends with the request satisfied or the contents at their end. */
    lemma Finished(idx: nat, pos: nat, at: nat, left: nat, dest: array<byte>, was: seq<byte>)
      requires Progress(idx, pos, at, left) && (idx == |buffers| || left == 0) && Copied(dest, pos, at, was)
      ensures Reads(All(), LastStart(), pos, at + left, dest[..at], Position())
      ensures dest[at..] == was[at..]
    {
    }

    /** BufferList::read and read_at_most: never an error, the bytes that one buffer would give. */
    method ReadAtMost(dest: array<byte>, nbytes: nat) returns (status: Status, bytesRead: nat)
      requires Valid() && nbytes <= dest.Length
      modifies this`currentIndex, this`currentOffset, buffers`offset, dest
      ensures Valid() && status == Ok && bytesRead <= nbytes
      ensures Reads(All(), LastStart(), old(Position()), nbytes, dest[..bytesRead], Position())
      ensures dest[bytesRead..] == old(dest[bytesRead..])
    {
      ghost var pos, was := Position(), dest[..];
      Begun(nbytes);
      var idx, left := ReadLoop(dest, nbytes, pos, was);
      status, bytesRead := Ok, nbytes - left;
      Finished(idx, pos, bytesRead, left, dest, was);
    }

    /** The read that must be satisfied. */
    method Read(dest: array<byte>, nbytes: nat) returns (status: Status)
      requires Valid() && nbytes <= dest.Length
      modifies this`currentIndex, this`currentOffset, buffers`offset, dest
      ensures Valid() && (status == Ok <==> old(Position()) + nbytes <= |All()|)
      ensures status == Ok ==>
        dest[..nbytes] == All()[old(Position())..old(Position()) + nbytes] && Position() == old(Position()) + nbytes
      ensures status != Ok ==> Position() == LastStart()
    {
      var bytesRead;
      status, bytesRead := ReadAtMost(dest, nbytes);
      if bytesRead != nbytes {
        status := BufferError;
      }
    }
  }

  // ---------------------------------------------------------------------------
  // Runs of reads
  // ---------------------------------------------------------------------------

  datatype Call = Call(n: nat, out: seq<byte>, next: nat)

  /** Any sequence of calls of ReadAtMost on one list. */
  ghost predicate Run(all: seq<byte>, lastStart: nat, pos: nat, calls: seq<Call>)
    decreases |calls|
  {
    calls == [] ||
    (Reads(all, lastStart, pos, calls[0].n, calls[0].out, calls[0].next) &&
     Run(all, lastStart, calls[0].next, calls[1..]))
  }

  predicate Satisfied(call: Call) {
    |call.out| == call.n
  }

  ghost function Requested(calls: seq<Call>): nat {
    if calls == [] then 0 else calls[0].n + Requested(calls[1..])
  }

  ghost function Joined(calls: seq<Call>): seq<byte> {
    if calls == [] then [] else calls[0].out + Joined(calls[1..])
  }

  /** Satisfied reads give consecutive slices: their outputs, one after the other, are the contents
      from where the run began, wherever the boundaries of the buffers are. */
  lemma {:induction false} SatisfiedReadsAreConsecutive(all: seq<byte>, lastStart: nat, pos: nat, calls: seq<Call>)
    requires pos <= |all| && Run(all, lastStart, pos, calls)
    requires forall i :: 0 <= i < |calls| ==> Satisfied(calls[i])
    ensures pos + Requested(calls) <= |all|
    ensures Joined(calls) == all[pos..pos + Requested(calls)]
    decreases |calls|
  {
    if calls != [] {
      var first, rest := calls[0], calls[1..];
      assert Satisfied(first);
      SatisfiedReadsAreConsecutive(all, lastStart, first.next, rest);
      assert first.out + all[first.next..first.next + Requested(rest)] == all[pos..pos + Requested(calls)];
    }
  }

  /** Each output is the slice that starts where the sizes before it end. */
  lemma {:induction false} EachReadIsItsSlice(all: seq<byte>, lastStart: nat, pos: nat, calls: seq<Call>, i: nat)
    requires pos <= |all| && Run(all, lastStart, pos, calls) && i < |calls|
    requires forall j :: 0 <= j < |calls| ==> Satisfied(calls[j])
    ensures pos + Requested(calls[..i]) + calls[i].n <= |all|
    ensures calls[i].out == all[pos + Requested(calls[..i])..pos + Requested(calls[..i]) + calls[i].n]
    decreases |calls|
  {
    var first, rest := calls[0], calls[1..];
    assert Satisfied(first);
    if i > 0 {
      EachReadIsItsSlice(all, lastStart, first.next, rest, i - 1);
      assert calls[..i][1..] == rest[..i - 1];
    }
  }

  /** The first read that is not satisfied gives exactly the rest of the contents. */
  lemma {:induction false} FirstShortReadDrains(all: seq<byte>, lastStart: nat, pos: nat, calls: seq<Call>, short: Call)
    requires pos <= |all| && Run(all, lastStart, pos, calls + [short])
    requires (forall i :: 0 <= i < |calls| ==> Satisfied(calls[i])) && !Satisfied(short)
    ensures Joined(calls) + short.out == all[pos..] && short.next == lastStart
    ensures pos + Requested(calls) <= |all| < pos + Requested(calls) + short.n
    decreases |calls|
  {
    if calls == [] {
      assert (calls + [short])[0] == short;
    } else {
      var first, rest := calls[0], calls[1..];
      assert Satisfied(first) && (calls + [short])[0] == first && (calls + [short])[1..] == rest + [short];
      FirstShortReadDrains(all, lastStart, first.next, rest, short);
      FirstAndRest(all, pos, first, Joined(rest), short.out);
    }
  }

  lemma FirstAndRest(all: seq<byte>, pos: nat, first: Call, rest: seq<byte>, last: seq<byte>)
    requires pos + first.n <= |all| && first.out == all[pos..pos + first.n] && rest + last == all[pos + first.n..]
    ensures first.out + rest + last == all[pos..]
  {
    assert first.out + rest + last == first.out + (rest + last);
  }

  /** After a short read the bytes of the last buffer come again: a further read finds nothing,
      as reading one contiguous buffer would, exactly when the last buffer is empty. */
  lemma AfterShortRead(all: seq<byte>, lastStart: nat, pos: nat, short: Call, again: Call)
    requires lastStart <= |all| && pos <= |all| && Run(all, lastStart, pos, [short, again])
    requires !Satisfied(short) && 0 < again.n
    ensures again.out <= all[lastStart..]
    ensures again.out == [] <==> lastStart == |all|
  {
    assert [short, again][1..] == [again];
    assert Reads(all, lastStart, short.next, again.n, again.out, again.next);
  }

  /** Two short reads of a list of one buffer give its bytes twice. */
  method RereadExample() returns (dest: array<byte>, first: nat, second: nat)
    ensures dest.Length == 4 && first == 1 && second == 1 && dest[0] == 7
  {
    var list := new BufferList();
    var b := new Buffer([7]);
    list.AddBuffer(b);
    dest := new byte[4](i => 0);
    var status;
    status, first := list.ReadAtMost(dest, 2);
    assert list.LastStart() == 0 && list.All() == [7];
    status, second := list.ReadAtMost(dest, 2);
    assert dest[..1][0] == 7;
  }
}
