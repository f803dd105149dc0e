/** The executable-memory buffer of `AMD64CompileContext` and the `WriteByte`
    macro that fills it from the top down. A failed `assert` of the source
    ends compilation; the model records it as a status after which nothing
    more is written. */
module Amd64Output {

  import opened Bytes

  /** The `assert`s of src/x86_64.c that can fail. */
  datatype Fault =
    | BufferExhausted        // WriteByte: the cursor went below 0
    | ReturnAlreadyAssigned  // Ret: the returned variable already had a location
    | TooManyArguments       // an argument beyond the convention's registers

  datatype Status = Running | Aborted(fault: Fault)

  /** `ExecutableMemory` with `ExecutableMemoryCursor`, which counts down from
      the buffer size. */
  datatype Output = Output(Mem: seq<byte>, Cursor: nat, Status: Status)

  predicate OutputValid(o: Output) {
    o.Cursor <= |o.Mem|
  }

  /** The `WriteByte` macro: step the cursor down by one and store the byte at
      the new cursor, touching no other cell; when the cursor is already 0 the
      macro's assertion fails instead of writing. */
  function WriteByte(o: Output, b: byte): (r: Output)
    requires OutputValid(o)
    ensures OutputValid(r) && |r.Mem| == |o.Mem|
    ensures o.Status.Running? && o.Cursor > 0 ==>
      r.Status.Running? && r.Cursor == o.Cursor - 1 && r.Mem[r.Cursor] == b
      && forall k :: 0 <= k < |o.Mem| && k != r.Cursor ==> r.Mem[k] == o.Mem[k]
    ensures o.Status.Running? && o.Cursor == 0 ==> r == o.(Status := Aborted(BufferExhausted))
    ensures !o.Status.Running? ==> r == o
  {
    if !o.Status.Running? then o
    else if o.Cursor == 0 then o.(Status := Aborted(BufferExhausted))
    else o.(Mem := o.Mem[o.Cursor - 1 := b], Cursor := o.Cursor - 1)
  }

  /** Writing the memory-order sequence `bs` byte by byte, its last byte first. */
  function Emit(o: Output, bs: seq<byte>): (r: Output)
    requires OutputValid(o)
    ensures OutputValid(r) && |r.Mem| == |o.Mem|
    decreases |bs|
  {
    if bs == [] then o else WriteByte(Emit(o, bs[1..]), bs[0])
  }

  /** Records a failed assertion; the first failure is the one that stops the program. */
  function Fail(o: Output, f: Fault): (r: Output)
    requires OutputValid(o)
    ensures r.Mem == o.Mem && r.Cursor == o.Cursor && !r.Status.Running?
    ensures !o.Status.Running? ==> r == o
    ensures Grows(o, r)
  {
    if o.Status.Running? then o.(Status := Aborted(f)) else o
  }

  /** Bytes written downwards land in memory in the reverse of the order they
      were written: `bs` ends up just below the old cursor in memory order and
      the cursor stops at its first byte. Without room for all of it, the
      bytes that fit are written and the assertion fails. Nothing else changes. */
  lemma EmitPlacesBytes(o: Output, bs: seq<byte>)
    requires OutputValid(o)
    ensures var r := Emit(o, bs);
      && (o.Status.Running? && |bs| <= o.Cursor ==>
            r.Status.Running? && r.Cursor == o.Cursor - |bs|
            && r.Mem == o.Mem[..o.Cursor - |bs|] + bs + o.Mem[o.Cursor..])
      && (o.Status.Running? && |bs| > o.Cursor ==>
            r.Status == Aborted(BufferExhausted) && r.Cursor == 0
            && r.Mem == bs[|bs| - o.Cursor..] + o.Mem[o.Cursor..])
      && (!o.Status.Running? ==> r == o)
  {
    if !o.Status.Running? {
      EmitAfterAbort(o, bs);
    } else if |bs| <= o.Cursor {
      EmitFits(o, bs);
    } else {
      EmitOverflows(o, bs);
    }
  }

  lemma {:induction false} EmitAfterAbort(o: Output, bs: seq<byte>)
    requires OutputValid(o) && !o.Status.Running?
    ensures Emit(o, bs) == o
    decreases |bs|
  {
    if bs != [] {
      EmitAfterAbort(o, bs[1..]);
    }
  }

  lemma EmitFits(o: Output, bs: seq<byte>)
    requires OutputValid(o) && o.Status.Running? && |bs| <= o.Cursor
    ensures var r := Emit(o, bs);
      r.Status.Running? && r.Cursor == o.Cursor - |bs|
      && r.Mem == o.Mem[..o.Cursor - |bs|] + bs + o.Mem[o.Cursor..]
  {
    EmitFitsPointwise(o, bs);
    var r := Emit(o, bs);
    var lo := o.Cursor - |bs|;
    var m := o.Mem[..lo] + bs + o.Mem[o.Cursor..];
    assert forall k :: 0 <= k < |m| ==> r.Mem[k] == m[k] by {
      forall k | 0 <= k < |m|
        ensures r.Mem[k] == m[k]
      {
        if k < lo {
          assert m[k] == o.Mem[k];
        } else if k < o.Cursor {
          assert m[k] == bs[k - lo];
        } else {
          assert m[k] == o.Mem[k];
        }
      }
    }
  }

  /** `EmitFits` cell by cell. */
  lemma {:induction false} EmitFitsPointwise(o: Output, bs: seq<byte>)
    requires OutputValid(o) && o.Status.Running? && |bs| <= o.Cursor
    ensures var r := Emit(o, bs);
      && r.Status.Running? && r.Cursor == o.Cursor - |bs|
      && (forall k :: 0 <= k < |bs| ==> r.Mem[o.Cursor - |bs| + k] == bs[k])
      && (forall k :: 0 <= k < |o.Mem| && !(o.Cursor - |bs| <= k < o.Cursor) ==> r.Mem[k] == o.Mem[k])
    decreases |bs|
  {
    if bs != [] {
      var tail := bs[1..];
      EmitFitsPointwise(o, tail);
      var r := Emit(o, bs);
      var lo := o.Cursor - |bs|;
      forall k | 0 <= k < |bs|
        ensures r.Mem[lo + k] == bs[k]
      {
        if k > 0 {
          assert bs[k] == tail[k - 1];
        }
      }
    }
  }

  lemma {:induction false} EmitOverflows(o: Output, bs: seq<byte>)
    requires OutputValid(o) && o.Status.Running? && |bs| > o.Cursor
    ensures var r := Emit(o, bs);
      r.Status == Aborted(BufferExhausted) && r.Cursor == 0
      && r.Mem == bs[|bs| - o.Cursor..] + o.Mem[o.Cursor..]
    decreases |bs|
  {
    var tail := bs[1..];
    if |tail| == o.Cursor {
      EmitFits(o, tail);
      assert bs[|bs| - o.Cursor..] == tail;
      assert o.Mem[..0] == [];
    } else {
      EmitOverflows(o, tail);
      assert tail[|tail| - o.Cursor..] == bs[|bs| - o.Cursor..];
    }
  }

  /** Writing `a` and then `b` writes `b + a` in memory order. */
  lemma {:induction false} EmitConcat(o: Output, a: seq<byte>, b: seq<byte>)
    requires OutputValid(o)
    ensures Emit(Emit(o, a), b) == Emit(o, b + a)
    decreases |b|
  {
    if b != [] {
      EmitConcat(o, a, b[1..]);
      assert (b + a)[1..] == b[1..] + a && (b + a)[0] == b[0];
      calc {
        Emit(Emit(o, a), b);
        WriteByte(Emit(Emit(o, a), b[1..]), b[0]);
        WriteByte(Emit(o, b[1..] + a), b[0]);
        Emit(o, b + a);
      }
    } else {
      assert b + a == a;
    }
  }

  /** `r` extends `o`: same buffer, the cursor at or below, everything at or
      above the old cursor untouched, and a failure is never undone. */
  predicate Grows(o: Output, r: Output) {
    Extends(o, r) == true
  }

  /** The facts `Grows` collects, checked as one. The cells above the old
      cursor are compared one `Kept` at a time, so that a proof looks at a
      cell only when it names it. */
  predicate Extends(o: Output, r: Output) {
    && |r.Mem| == |o.Mem| && r.Cursor <= o.Cursor && o.Cursor <= |o.Mem|
    && (forall k :: o.Cursor <= k < |o.Mem| ==> Kept(o, r, k))
    && (!o.Status.Running? ==> r == o)
  }

  /** Cell `k` holds the same byte in `o` and `r`. */
  predicate Kept(o: Output, r: Output, k: int) {
    0 <= k < |o.Mem| && k < |r.Mem| && r.Mem[k] == o.Mem[k]
  }

  lemma GrowsReflexive(o: Output)
    requires OutputValid(o)
    ensures Grows(o, o)
  {
  }

  lemma GrowsTransitive(o: Output, p: Output, r: Output)
    requires Grows(o, p) && Grows(p, r)
    ensures Grows(o, r)
  {
    forall k | o.Cursor <= k < |o.Mem|
      ensures Kept(o, r, k)
    {
      assert Kept(o, p, k) && Kept(p, r, k);
    }
  }

  /** Writing never touches what is above the cursor. */
  lemma EmitGrows(o: Output, bs: seq<byte>)
    requires OutputValid(o)
    ensures Grows(o, Emit(o, bs))
  {
    EmitPlacesBytes(o, bs);
    var r := Emit(o, bs);
    if o.Status.Running? {
      var lo := if |bs| <= o.Cursor then o.Cursor - |bs| else 0;
      var below := if |bs| <= o.Cursor then o.Mem[..lo] + bs else bs[|bs| - o.Cursor..];
      assert r.Mem == below + o.Mem[o.Cursor..] && |below| == o.Cursor;
      forall k | o.Cursor <= k < |o.Mem|
        ensures Kept(o, r, k)
      {
        assert r.Mem[k] == o.Mem[o.Cursor..][k - o.Cursor];
      }
    }
  }

  /** While nothing has failed, `bs` sits in memory just below `start`, and
      the cursor is below it. */
  predicate BytesBelow(bs: seq<byte>, start: int, q: Output) {
    q.Status.Running? ==>
      && |bs| <= start <= |q.Mem| && q.Cursor + |bs| <= start
      && q.Mem[start - |bs|..start] == bs
  }

  /** Bytes once written stay where they were written. */
  lemma WrittenBytesStay(p: Output, bs: seq<byte>, q: Output)
    requires OutputValid(p) && Grows(Emit(p, bs), q)
    ensures BytesBelow(bs, p.Cursor, q)
  {
    EmitPlacesBytes(p, bs);
    var e := Emit(p, bs);
    if q.Status.Running? {
      assert e.Status.Running?;
      var lo := p.Cursor - |bs|;
      assert e.Mem[lo..p.Cursor] == bs;
      BytesBelowGrows(bs, p.Cursor, e, q);
    }
  }

  /** What lies above the cursor stays there as the output grows. */
  lemma BytesBelowGrows(bs: seq<byte>, start: int, o: Output, q: Output)
    requires BytesBelow(bs, start, o) && Grows(o, q)
    ensures BytesBelow(bs, start, q)
  {
    if q.Status.Running? {
      AboveCursorStays(o, q, start - |bs|, start);
    }
  }

  /** Cells at or above the cursor keep their contents as the output grows. */
  lemma AboveCursorStays(o: Output, q: Output, lo: int, hi: int)
    requires Grows(o, q) && o.Cursor <= lo <= hi <= |o.Mem|
    ensures q.Mem[lo..hi] == o.Mem[lo..hi]
  {
    forall k | lo <= k < hi
      ensures q.Mem[k] == o.Mem[k]
    {
      assert Kept(o, q, k);
    }
    assert q.Mem[lo..hi] == o.Mem[lo..hi];
  }
}
