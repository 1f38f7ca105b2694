/**
  A byte stream kept in a chain of blocks, against one flat sequence of bytes. A block's bytes
  beyond its size are not modelled.
*/
module ChainedStream {
  import opened Basics

  datatype Block = Block(capacity: nat, content: string)
  datatype Position = Position(idx: nat, pos: nat)

  function Flat(bs: seq<Block>): string {
    if bs == [] then "" else Flat(bs[..|bs| - 1]) + bs[|bs| - 1].content
  }

  // The flat offset of block i
  function Offset(bs: seq<Block>, i: nat): nat
    requires i <= |bs|
  {
    |Flat(bs[..i])|
  }

  // Only the last block may be partly filled, and no block is empty.
  ghost predicate ChainOk(bs: seq<Block>) {
    && (forall i :: 0 <= i < |bs| ==> 0 < |bs[i].content| <= bs[i].capacity)
    && (forall i :: 0 <= i < |bs| - 1 ==> |bs[i].content| == bs[i].capacity)
  }

  ghost predicate AllFull(bs: seq<Block>) {
    bs == [] || |bs[|bs| - 1].content| == bs[|bs| - 1].capacity
  }

  // A position in a block, or behind a chain whose blocks are all full
  ghost predicate PositionOk(bs: seq<Block>, p: Position) {
    if p.idx < |bs| then p.pos <= |bs[p.idx].content| else p.idx == |bs| && p.pos == 0 && AllFull(bs)
  }

  function Later(a: nat, b: nat): nat { if a < b then b else a }

  // Where a failed read from q stops: at the end, or at the start of a last block that is not full
  ghost function StopAt(bs: seq<Block>, q: nat): nat {
    if AllFull(bs) then |Flat(bs)| else Later(q, Offset(bs, |bs| - 1))
  }

  // The bytes that the blocks have room for
  function Capacity(bs: seq<Block>): nat {
    if bs == [] then 0 else Offset(bs, |bs| - 1) + bs[|bs| - 1].capacity
  }

  function FlatPosition(bs: seq<Block>, p: Position): nat
    requires p.idx <= |bs|
  {
    Offset(bs, p.idx) + p.pos
  }

  /** The blocks that hold d when it is appended: small if the rest fits one, else large. */
  function NewBlocks(d: string, min: nat, max: nat): seq<Block>
    requires min > 0 && max > 0
    decreases |d|
  {
    if d == "" then []
    else
      var capacity := if |d| > min then max else min;
      var n := if capacity < |d| then capacity else |d|;
      [Block(capacity, d[..n])] + NewBlocks(d[n..], min, max)
  }

  lemma NoNewBlocks(min: nat, max: nat)
    requires min > 0 && max > 0
    ensures NewBlocks("", min, max) == []
  {
  }

  /** Large blocks, full but for the last one, which is small if what it holds fits a small one. */
  lemma {:induction false} NewBlocksShape(d: string, min: nat, max: nat)
    requires 0 < min <= max && d != ""
    ensures var bs := NewBlocks(d, min, max);
      && bs != [] && Flat(bs) == d
      && (forall i :: 0 <= i < |bs| - 1 ==> bs[i].capacity == |bs[i].content| == max)
      && var last := bs[|bs| - 1]; last.content != "" && last.capacity == if |last.content| <= min then min else max
    decreases |d|
  {
    hide Flat;
    var capacity := if |d| > min then max else min;
    var n := if capacity < |d| then capacity else |d|;
    var b, rest := Block(capacity, d[..n]), NewBlocks(d[n..], min, max);
    FlatPrepend(b, rest);
    assert d[..n] + d[n..] == d;
    if n < |d| {
      NewBlocksShape(d[n..], min, max);
    } else {
      NoNewBlocks(min, max);
      assert Flat([]) == "" by { FlatNothing(); }
    }
  }

  lemma FlatNothing()
    ensures Flat([]) == ""
  {
  }

  lemma {:induction false} FlatPrepend(b: Block, bs: seq<Block>)
    ensures Flat([b] + bs) == b.content + Flat(bs)
    decreases |bs|
  {
    if bs == [] {
      assert ([b] + bs)[..0] == [];
    } else {
      var n := |bs| - 1;
      assert ([b] + bs)[..n + 1] == [b] + bs[..n];
      FlatPrepend(b, bs[..n]);
    }
  }

  lemma NewBlocksStep(buf: string, done: nat, n: nat, min: nat, max: nat, b: Block)
    requires min > 0 && max > 0 && done < |buf| && b.capacity == (if |buf| - done > min then max else min)
    requires n == (if b.capacity < |buf| - done then b.capacity else |buf| - done) && b.content == buf[done..done + n]
    ensures NewBlocks(buf[done..], min, max) == [b] + NewBlocks(buf[done + n..], min, max)
  {
    assert buf[done..][..n] == buf[done..done + n];
    assert buf[done..][n..] == buf[done + n..];
  }

  /** The bytes of f with d written over them from q on. */
  function Overwrite(f: string, q: nat, d: string): string
    requires q <= |f|
  {
    f[..q] + d + (if q + |d| < |f| then f[q + |d|..] else "")
  }

  /** Byte by byte: d's bytes where d was written, f's everywhere else. */
  lemma OverwriteAt(f: string, q: nat, d: string)
    requires q <= |f|
    ensures |Overwrite(f, q, d)| == if q + |d| > |f| then q + |d| else |f|
    ensures forall i :: q <= i < q + |d| ==> Overwrite(f, q, d)[i] == d[i - q]
    ensures forall i :: 0 <= i < |f| && !(q <= i < q + |d|) ==> Overwrite(f, q, d)[i] == f[i]
  {
  }

  lemma OverwriteTwice(f: string, q: nat, a: string, b: string)
    requires q <= |f|
    ensures q + |a| <= |Overwrite(f, q, a)|
    ensures Overwrite(Overwrite(f, q, a), q + |a|, b) == Overwrite(f, q, a + b)
  {
    var g := Overwrite(f, q, a);
    assert g[..q + |a|] == f[..q] + a;
    if q + |a| + |b| < |f| {
      assert g[q + |a|..] == f[q + |a|..];
      assert g[q + |a| + |b|..] == f[q + |a| + |b|..] by { TailOfTail(g, f, q + |a|, |b|); }
    }
  }

  lemma TailOfTail(g: string, f: string, i: nat, n: nat)
    requires i + n <= |g| && i + n <= |f| && g[i..] == f[i..]
    ensures g[i + n..] == f[i + n..]
  {
    assert g[i + n..] == g[i..][n..];
    assert f[i + n..] == f[i..][n..];
  }

  // ---------------------------------------------------------------- flat and blocked views

  lemma FlatAppend(bs: seq<Block>, b: Block)
    ensures Flat(bs + [b]) == Flat(bs) + b.content
  {
    assert (bs + [b])[..|bs|] == bs;
  }

  lemma OffsetNext(bs: seq<Block>, i: nat)
    requires i < |bs|
    ensures Offset(bs, i + 1) == Offset(bs, i) + |bs[i].content|
  {
    assert bs[..i + 1] == bs[..i] + [bs[i]];
    FlatAppend(bs[..i], bs[i]);
  }

  /** Block i's bytes lie at its offset. */
  lemma {:induction false} BlockInFlat(bs: seq<Block>, i: nat)
    requires i < |bs|
    ensures var o := Offset(bs, i);
      && o + |bs[i].content| <= |Flat(bs)| && Flat(bs)[..o] == Flat(bs[..i])
      && Flat(bs)[o..o + |bs[i].content|] == bs[i].content
    ensures i == |bs| - 1 ==> Offset(bs, i) + |bs[i].content| == |Flat(bs)|
  {
    var n := |bs| - 1;
    assert Flat(bs) == Flat(bs[..n]) + bs[n].content;
    if i < n {
      BlockInFlat(bs[..n], i);
      assert bs[..n][..i] == bs[..i];
      var o, m := Offset(bs, i), |bs[i].content|;
      assert Flat(bs)[..o] == Flat(bs[..n])[..o];
      assert Flat(bs)[o..o + m] == Flat(bs[..n])[o..o + m];
    }
  }

  lemma FlatEnd(bs: seq<Block>)
    ensures Offset(bs, |bs|) == |Flat(bs)|
  {
    assert bs[..|bs|] == bs;
  }

  /** Writing d into block i at p, where the block is the last one or d fits what it holds. */
  lemma {:induction false} FlatPut(bs: seq<Block>, i: nat, p: nat, d: string)
    requires i < |bs| && p <= |bs[i].content| && (i == |bs| - 1 || p + |d| <= |bs[i].content|)
    ensures Offset(bs, i) + p <= |Flat(bs)|
    ensures Flat(bs[i := bs[i].(content := Overwrite(bs[i].content, p, d))])
      == Overwrite(Flat(bs), Offset(bs, i) + p, d)
    decreases |bs|
  {
    hide Overwrite, Flat;
    BlockInFlat(bs, i);
    var n := |bs| - 1;
    var b := bs[i].(content := Overwrite(bs[i].content, p, d));
    var bs' := bs[i := b];
    FlatSplit(bs);
    FlatSplit(bs');
    if i == n {
      assert bs'[..n] == bs[..n];
      PutAtEnd(Flat(bs[..n]), bs[n].content, p, d);
    } else {
      FlatPut(bs[..n], i, p, d);
      assert bs[..n][..i] == bs[..i];
      assert bs'[..n] == bs[..n][i := b];
      BlockInFlat(bs[..n], i);
      PutBefore(Flat(bs[..n]), bs[n].content, Offset(bs, i) + p, d);
    }
  }

  lemma FlatSplit(bs: seq<Block>)
    requires bs != []
    ensures Flat(bs) == Flat(bs[..|bs| - 1]) + bs[|bs| - 1].content
  {
  }

  lemma PutAtEnd(a: string, b: string, p: nat, d: string)
    requires p <= |b|
    ensures a + Overwrite(b, p, d) == Overwrite(a + b, |a| + p, d)
  {
    assert (a + b)[..|a| + p] == a + b[..p];
    if p + |d| < |b| { assert (a + b)[|a| + p + |d|..] == b[p + |d|..]; }
  }

  lemma PutBefore(a: string, b: string, q: nat, d: string)
    requires q + |d| <= |a|
    ensures Overwrite(a, q, d) + b == Overwrite(a + b, q, d)
  {
    assert (a + b)[..q] == a[..q];
    assert (a + b)[q + |d|..] == a[q + |d|..] + b;
  }

  // ---------------------------------------------------------------- the stream

  class ChainedStrStream {
    var blocks: seq<Block>
    var posR: Position
    var posW: Position
    var minCapacity: nat
    var maxCapacity: nat

    ghost predicate Valid()
      reads this
    {
      ChainOk(blocks) && PositionOk(blocks, posR) && PositionOk(blocks, posW) && minCapacity > 0 && maxCapacity > 0
    }

    ghost function Bytes(): string
      reads this
    {
      Flat(blocks)
    }

    ghost function ReadAt(): nat
      reads this
      requires Valid()
    {
      FlatPosition(blocks, posR)
    }

    ghost function WriteAt(): nat
      reads this
      requires Valid()
    {
      FlatPosition(blocks, posW)
    }

    constructor ()
      ensures Valid() && Bytes() == "" && ReadAt() == 0 && WriteAt() == 0
      ensures minCapacity == 102400 && maxCapacity == 1048576
    {
      minCapacity, maxCapacity := 100 * 1024, 1024 * 1024;
      blocks := [];
      posR, posW := Position(0, 0), Position(0, 0);
    }

    method Clear()
      requires minCapacity > 0 && maxCapacity > 0
      modifies this`blocks, this`posR, this`posW
      ensures Valid() && Bytes() == "" && ReadAt() == 0 && WriteAt() == 0
    {
      blocks := [];
      posR, posW := Position(0, 0), Position(0, 0);
    }

    /** `Size`. */
    method Size() returns (size: nat)
      requires Valid()
      ensures size == |Bytes()|
    {
      hide Flat;
      size := 0;
      NoOffset(blocks);
      var i := 0;
      while i < |blocks|
        invariant 0 <= i <= |blocks| && size == Offset(blocks, i)
      {
        OffsetNext(blocks, i);
        size := size + |blocks[i].content|;
        i := i + 1;
      }
      FlatEnd(blocks);
    }

    // Sums the capacities of the blocks before the position.
    method Tell(p: Position) returns (pos: nat)
      requires ChainOk(blocks) && PositionOk(blocks, p)
      ensures pos == FlatPosition(blocks, p)
    {
      hide Flat;
      pos := 0;
      NoOffset(blocks);
      var i := 0;
      while i < (if p.idx < |blocks| then p.idx else |blocks|)
        invariant 0 <= i <= p.idx && pos == Offset(blocks, i)
      {
        OffsetNext(blocks, i);
        pos := pos + blocks[i].capacity;
        i := i + 1;
      }
      pos := pos + p.pos;
    }

    method TellRPos() returns (pos: nat)
      requires Valid()
      ensures pos == ReadAt()
    {
      pos := Tell(posR);
    }

    method TellWPos() returns (pos: nat)
      requires Valid()
      ensures pos == WriteAt()
    {
      pos := Tell(posW);
    }

    // Where a seek to pos from position p0 ends; a failed seek may move to the end of the data.
    method Seek(pos: nat, p0: Position) returns (ok: bool, p: Position)
      requires ChainOk(blocks) && PositionOk(blocks, p0)
      ensures PositionOk(blocks, p) && (ok <==> pos <= |Flat(blocks)|)
      ensures ok ==> FlatPosition(blocks, p) == pos
      ensures !ok ==> p == p0 || FlatPosition(blocks, p) == |Flat(blocks)|
      ensures !ok && pos < Capacity(blocks) ==> FlatPosition(blocks, p) == |Flat(blocks)|
      ensures !ok && pos >= Capacity(blocks) ==> p == p0
    {
      hide Flat;
      var left := pos;
      NoOffset(blocks);
      var i := 0;
      while i < |blocks|
        invariant 0 <= i <= |blocks| && left >= 0 && left + Offset(blocks, i) == pos
        invariant i == |blocks| && left == 0 ==> AllFull(blocks)
        invariant i == |blocks| ==> pos >= Capacity(blocks)
      {
        OffsetNext(blocks, i);
        BlockInFlat(blocks, i);
        if left >= blocks[i].capacity {
          left := left - |blocks[i].content|;
        } else if left > |blocks[i].content| {
          return false, Position(i, |blocks[i].content|);
        } else {
          return true, Position(i, left);
        }
        i := i + 1;
      }
      FlatEnd(blocks);
      if left == 0 {
        return true, Position(i, 0);
      }
      return false, p0;
    }

    /**
      `SeekR`: succeeds exactly for positions up to the size, and then tells that position. A
      failed seek goes to the end if the last block has room up to there, and else stays.
    */
    method SeekR(pos: nat) returns (ok: bool)
      requires Valid()
      modifies this`posR
      ensures Valid() && (ok <==> pos <= |Bytes()|)
      ensures ok ==> ReadAt() == pos
      ensures !ok ==> ReadAt() == if pos < Capacity(blocks) then |Bytes()| else old(ReadAt())
    {
      var p;
      ok, p := Seek(pos, posR);
      posR := p;
    }

    /** `SeekW`: the same for the write position. */
    method SeekW(pos: nat) returns (ok: bool)
      requires Valid()
      modifies this`posW
      ensures Valid() && (ok <==> pos <= |Bytes()|)
      ensures ok ==> WriteAt() == pos
      ensures !ok ==> WriteAt() == if pos < Capacity(blocks) then |Bytes()| else old(WriteAt())
    {
      var p;
      ok, p := Seek(pos, posW);
      posW := p;
    }

    /**
      `Read`: succeeds exactly when that many bytes remain, and then returns them. A failed read
      takes what there is, but of a last block that is not full it takes nothing.
    */
    method Read(size: nat) returns (ok: bool, buf: string)
      requires Valid()
      modifies this`posR
      ensures Valid() && old(ReadAt()) <= ReadAt() <= |Bytes()|
      ensures ok <==> old(ReadAt()) + size <= |Bytes()|
      ensures buf == Bytes()[old(ReadAt())..ReadAt()] && (ok ==> ReadAt() == old(ReadAt()) + size)
      ensures !ok ==> ReadAt() == StopAt(blocks, old(ReadAt()))
    {
      hide Flat, AllFull, PositionOk, ChainOk, FlatPosition, Offset, StopAt, Got;
      ghost var q := ReadAt();
      PositionBound(blocks, posR);
      buf := "";
      if size == 0 {
        return true, buf;
      }
      GotNothing(blocks, q);
      var left := size;
      while posR.idx < |blocks|
        invariant Valid() && |buf| + left == size && ReadAt() == q + |buf| && Got(blocks, q, ReadAt(), buf)
        invariant left > 0 && (posR == old(posR) || posR.pos == 0)
        decreases |blocks| - posR.idx
      {
        var i, p := posR.idx, posR.pos;
        var block := blocks[i];
        PositionParts(blocks, posR);
        if |block.content| < p + left {
          if block.capacity > |block.content| {
            StopsInBlock(blocks, old(posR), posR);
            GotBytes(blocks, q, ReadAt(), buf);
            return false, buf;
          }
          ReadMore(blocks, i, p, |block.content|, q, buf);
          buf := buf + block.content[p..|block.content|];
          left := left - (|block.content| - p);
          NextBlockStart(blocks, i);
          posR := Position(i + 1, 0);
        } else {
          ReadMore(blocks, i, p, p + left, q, buf);
          buf := buf + block.content[p..p + left];
          InBlock(blocks, i, p + left);
          posR := Position(i, p + left);
          left := 0;
          break;
        }
      }
      GotBytes(blocks, q, ReadAt(), buf);
      if left > 0 { StopsAtEnd(blocks, posR, q); }
      ok := left == 0;
    }

    // The first loop of Write: fills the blocks that are there.
    method WriteInPlace(buf: string) returns (done: nat)
      requires Valid() && buf != ""
      modifies this`blocks, this`posW
      ensures Valid() && done <= |buf| && ReadAt() == old(ReadAt())
      ensures old(WriteAt()) <= |old(Bytes())| && Bytes() == Overwrite(old(Bytes()), old(WriteAt()), buf[..done])
      ensures WriteAt() == old(WriteAt()) + done && (done < |buf| ==> posW.idx == |blocks|)
    {
      hide Flat, AllFull, Overwrite, PositionOk, ChainOk, FlatPosition;
      done := 0;
      ghost var f, q := Bytes(), WriteAt();
      PositionBound(blocks, posW);
      OverwriteNothing(f, q);
      assert buf[..0] == "";
      while posW.idx < |blocks|
        invariant Valid() && done < |buf| && ReadAt() == old(ReadAt())
        invariant Bytes() == Overwrite(f, q, buf[..done]) && WriteAt() == q + done
        decreases |blocks| - posW.idx
      {
        var i, p := posW.idx, posW.pos;
        var block := blocks[i];
        PositionParts(blocks, posW);
        if block.capacity < p + (|buf| - done) {
          var n := block.capacity - p;
          var piece := buf[done..done + n];
          WriteStep(blocks, i, p, piece, posR);
          WriteStep(blocks, i, p, piece, posW);
          OverwriteMore(f, q, buf, done, n);
          blocks := blocks[i := block.(content := Overwrite(block.content, p, piece))];
          done := done + n;
          NextBlockStart(blocks, i);
          posW := Position(i + 1, 0);
        } else {
          var piece := buf[done..];
          WriteStep(blocks, i, p, piece, posR);
          WriteStep(blocks, i, p, piece, posW);
          OverwriteMore(f, q, buf, done, |buf| - done);
          assert buf[done..|buf|] == piece;
          blocks := blocks[i := block.(content := Overwrite(block.content, p, piece))];
          posW := Position(i, p + |piece|);
          done := |buf|;
          InBlock(blocks, i, p + |piece|);
          return;
        }
      }
      PositionParts(blocks, posW);
    }

    // The second loop of Write: new blocks behind a full chain.
    method AppendBlocks(buf: string)
      requires Valid() && posW.idx == |blocks| && buf != ""
      modifies this`blocks, this`posW
      ensures Valid() && ReadAt() == old(ReadAt())
      ensures blocks == old(blocks) + NewBlocks(buf, minCapacity, maxCapacity)
      ensures Bytes() == old(Bytes()) + buf && WriteAt() == old(WriteAt()) + |buf|
    {
      hide Flat, AllFull, PositionOk, ChainOk, FlatPosition, NewBlocks;
      var done := 0;
      ghost var f, blocks0, added := Bytes(), blocks, NewBlocks(buf, minCapacity, maxCapacity);
      PositionParts(blocks, posW);
      assert buf[0..] == buf && blocks + added == blocks0 + added;
      while done < |buf|
        invariant Valid() && 0 <= done <= |buf| && ReadAt() == old(ReadAt()) && WriteAt() == old(WriteAt()) + done
        invariant Bytes() == f + buf[..done] && (done < |buf| ==> AllFull(blocks))
        invariant WriteAt() == |Bytes()|
        invariant blocks + NewBlocks(buf[done..], minCapacity, maxCapacity) == blocks0 + added
      {
        var left := |buf| - done;
        var capacity := if left > minCapacity then maxCapacity else minCapacity;
        var n := if capacity < left then capacity else left;
        var block := Block(capacity, buf[done..done + n]);
        NewBlocksStep(buf, done, n, minCapacity, maxCapacity, block);
        ghost var rest := NewBlocks(buf[done + n..], minCapacity, maxCapacity);
        assert blocks + ([block] + rest) == (blocks + [block]) + rest;
        AppendStep(blocks, block, posR);
        AppendStep(blocks, block, posW);
        blocks := blocks + [block];
        posW := Position(|blocks| - 1, n);
        done := done + n;
        assert buf[..done - n] + buf[done - n..done] == buf[..done];
      }
      assert buf[..done] == buf && buf[done..] == "";
      NoNewBlocks(minCapacity, maxCapacity);
      assert blocks + [] == blocks;
    }

    /** `Write`: the bytes replace or extend the flat bytes at the write position. */
    method Write(buf: string) returns (ok: bool)
      requires Valid()
      modifies this`blocks, this`posW
      ensures ok && Valid() && ReadAt() == old(ReadAt())
      ensures WriteAt() == old(WriteAt()) + |buf| && old(WriteAt()) <= |old(Bytes())|
      ensures |Bytes()| == if old(WriteAt()) + |buf| > |old(Bytes())| then old(WriteAt()) + |buf| else |old(Bytes())|
      ensures forall i :: old(WriteAt()) <= i < old(WriteAt()) + |buf| ==> Bytes()[i] == buf[i - old(WriteAt())]
      ensures forall i :: 0 <= i < |old(Bytes())| && !(old(WriteAt()) <= i < old(WriteAt()) + |buf|) ==>
        Bytes()[i] == old(Bytes())[i]
    {
      hide Flat, AllFull, PositionOk, ChainOk, FlatPosition, Overwrite;
      PositionBound(blocks, posW);
      OverwriteAt(Bytes(), WriteAt(), buf);
      if buf == "" {
        return true;
      }
      var done := WriteInPlace(buf);
      assert buf[..|buf|] == buf;
      if done < |buf| {
        PositionParts(blocks, posW);
        OverwriteAtEnd(old(Bytes()), old(WriteAt()), buf, done);
        AppendBlocks(buf[done..]);
      }
      return true;
    }
  }

  /** What was written at a position is read back from there. */
  method WriteAndReadBack(s: ChainedStrStream, pos: nat, buf: string) returns (ok: bool, back: string)
    requires s.Valid()
    modifies s
    ensures s.Valid() && (ok <==> pos <= |old(s.Bytes())|)
    ensures ok ==> back == buf && s.ReadAt() == s.WriteAt() == pos + |buf|
    ensures !ok ==> s.Bytes() == old(s.Bytes())
  {
    hide Flat, AllFull, PositionOk, ChainOk, FlatPosition, Capacity, StopAt;
    back := "";
    ok := s.SeekW(pos);
    if ok {
      ok := s.Write(buf);
      ok := s.SeekR(pos);
      ok, back := s.Read(|buf|);
      assert back == buf;
    }
  }

  lemma OverwriteNothing(f: string, q: nat)
    requires q <= |f|
    ensures Overwrite(f, q, "") == f
  {
  }

  lemma OverwriteMore(f: string, q: nat, buf: string, done: nat, n: nat)
    requires q <= |f| && done + n <= |buf|
    ensures q + done <= |Overwrite(f, q, buf[..done])|
    ensures Overwrite(Overwrite(f, q, buf[..done]), q + done, buf[done..done + n]) == Overwrite(f, q, buf[..done + n])
  {
    hide Overwrite;
    OverwriteTwice(f, q, buf[..done], buf[done..done + n]);
    assert buf[..done] + buf[done..done + n] == buf[..done + n];
  }

  // When writing has reached the end, the rest is appended.
  lemma OverwriteAtEnd(f: string, q: nat, buf: string, done: nat)
    requires q <= |f| && done <= |buf| && q + done == |Overwrite(f, q, buf[..done])|
    ensures Overwrite(f, q, buf[..done]) + buf[done..] == Overwrite(f, q, buf)
  {
    assert buf[..done] + buf[done..] == buf;
  }

  lemma PositionParts(bs: seq<Block>, p: Position)
    requires ChainOk(bs) && PositionOk(bs, p)
    ensures p.idx <= |bs| && FlatPosition(bs, p) == Offset(bs, p.idx) + p.pos
    ensures p.idx < |bs| ==> p.pos <= |bs[p.idx].content| <= bs[p.idx].capacity
    ensures p.idx == |bs| ==> AllFull(bs) && FlatPosition(bs, p) == |Flat(bs)|
  {
    hide Flat;
    FlatEnd(bs);
  }

  lemma NextBlockStart(bs: seq<Block>, i: nat)
    requires ChainOk(bs) && i < |bs| && |bs[i].content| == bs[i].capacity
    ensures PositionOk(bs, Position(i + 1, 0))
    ensures FlatPosition(bs, Position(i + 1, 0)) == Offset(bs, i) + |bs[i].content|
  {
    hide Flat;
    OffsetNext(bs, i);
  }

  lemma InBlock(bs: seq<Block>, i: nat, p: nat)
    requires i < |bs| && p <= |bs[i].content|
    ensures PositionOk(bs, Position(i, p)) && FlatPosition(bs, Position(i, p)) == Offset(bs, i) + p
  {
    hide Flat;
  }

  lemma OverwriteLength(f: string, q: nat, d: string)
    requires q <= |f|
    ensures |Overwrite(f, q, d)| == if q + |d| < |f| then |f| else q + |d|
  {
  }

  /** Writing within block i's capacity: the flat bytes change in one place, positions stay. */
  lemma WriteStep(bs: seq<Block>, i: nat, p: nat, d: string, r: Position)
    requires ChainOk(bs) && i < |bs| && p <= |bs[i].content| && p + |d| <= bs[i].capacity && PositionOk(bs, r)
    ensures var b := bs[i].(content := Overwrite(bs[i].content, p, d)); var bs' := bs[i := b];
      && ChainOk(bs') && |b.content| >= p + |d| && |b.content| <= b.capacity
      && Offset(bs', i) == Offset(bs, i)
      && Offset(bs, i) + p <= |Flat(bs)| && Flat(bs') == Overwrite(Flat(bs), Offset(bs, i) + p, d)
      && PositionOk(bs', r) && r.idx <= |bs| && FlatPosition(bs', r) == FlatPosition(bs, r)
  {
    hide Flat, Overwrite;
    var b := bs[i].(content := Overwrite(bs[i].content, p, d));
    OverwriteLength(bs[i].content, p, d);
    FlatPut(bs, i, p, d);
    OffsetPut(bs, i, b, i);
    OffsetPut(bs, i, b, r.idx);
  }

  // Offsets only depend on the lengths of the blocks before.
  lemma {:induction false} OffsetPut(bs: seq<Block>, i: nat, b: Block, k: nat)
    requires i < |bs| && k <= |bs| && (k <= i || |b.content| == |bs[i].content|)
    ensures Offset(bs[i := b], k) == Offset(bs, k)
    decreases k
  {
    hide Flat;
    if k == 0 {
      NoOffset(bs);
      NoOffset(bs[i := b]);
    } else {
      OffsetPut(bs, i, b, k - 1);
      OffsetNext(bs, k - 1);
      OffsetNext(bs[i := b], k - 1);
    }
  }

  lemma AppendStep(bs: seq<Block>, b: Block, r: Position)
    requires ChainOk(bs) && AllFull(bs) && 0 < |b.content| <= b.capacity && PositionOk(bs, r)
    ensures ChainOk(bs + [b]) && Flat(bs + [b]) == Flat(bs) + b.content
    ensures |b.content| == b.capacity ==> AllFull(bs + [b])
    ensures PositionOk(bs + [b], r) && r.idx <= |bs| && FlatPosition(bs + [b], r) == FlatPosition(bs, r)
    ensures PositionOk(bs + [b], Position(|bs|, |b.content|))
    ensures FlatPosition(bs + [b], Position(|bs|, |b.content|)) == |Flat(bs + [b])|
  {
    hide Flat;
    FlatAppend(bs, b);
    assert (bs + [b])[..r.idx] == bs[..r.idx];
    assert (bs + [b])[..|bs|] == bs;
  }

  lemma NoOffset(bs: seq<Block>)
    ensures Offset(bs, 0) == 0
  {
  }

  lemma PositionBound(bs: seq<Block>, p: Position)
    requires PositionOk(bs, p)
    ensures FlatPosition(bs, p) <= |Flat(bs)|
  {
    hide Flat;
    if p.idx < |bs| { BlockInFlat(bs, p.idx); } else { FlatEnd(bs); }
  }

  // A block that is not full is the last one.
  lemma LastBlock(bs: seq<Block>, i: nat)
    requires ChainOk(bs) && i < |bs| && |bs[i].content| < bs[i].capacity
    ensures i == |bs| - 1 && Offset(bs, i) + |bs[i].content| == |Flat(bs)| && !AllFull(bs)
  {
    hide Flat;
    BlockInFlat(bs, i);
  }

  lemma StopsInBlock(bs: seq<Block>, p0: Position, p: Position)
    requires ChainOk(bs) && PositionOk(bs, p0) && PositionOk(bs, p) && (p == p0 || p.pos == 0) && p.idx < |bs|
    requires |bs[p.idx].content| < bs[p.idx].capacity && FlatPosition(bs, p0) <= FlatPosition(bs, p)
    ensures FlatPosition(bs, p) == StopAt(bs, FlatPosition(bs, p0))
    ensures FlatPosition(bs, p) + |bs[p.idx].content| == |Flat(bs)| + p.pos
  {
    hide Flat;
    LastBlock(bs, p.idx);
  }

  lemma StopsAtEnd(bs: seq<Block>, p: Position, q: nat)
    requires ChainOk(bs) && PositionOk(bs, p) && p.idx >= |bs|
    ensures FlatPosition(bs, p) == StopAt(bs, q) == |Flat(bs)|
  {
    hide Flat;
    FlatEnd(bs);
  }

  // Bytes p..e of block i continue what has been read.
  lemma ReadMore(bs: seq<Block>, i: nat, p: nat, e: nat, q: nat, got: string)
    requires i < |bs| && p <= e <= |bs[i].content| && Got(bs, q, Offset(bs, i) + p, got)
    ensures Got(bs, q, Offset(bs, i) + e, got + bs[i].content[p..e])
  {
    hide Flat;
    BlockInFlat(bs, i);
    var f, o, c := Flat(bs), Offset(bs, i), bs[i].content;
    SliceOfSlice(f, o, |c|, p, e);
    SliceJoin(f, q, o + p, o + e);
  }

  // The bytes from q up to `at` have been read.
  ghost predicate Got(bs: seq<Block>, q: nat, at: nat, buf: string) {
    q <= at <= |Flat(bs)| && buf == Flat(bs)[q..at]
  }

  lemma GotNothing(bs: seq<Block>, q: nat)
    requires q <= |Flat(bs)|
    ensures Got(bs, q, q, "")
  {
  }

  lemma GotBytes(bs: seq<Block>, q: nat, at: nat, buf: string)
    requires Got(bs, q, at, buf)
    ensures q <= at <= |Flat(bs)| && buf == Flat(bs)[q..at]
  {
  }

  lemma SliceJoin(f: string, i: nat, j: nat, k: nat)
    requires i <= j <= k <= |f|
    ensures f[i..j] + f[j..k] == f[i..k]
  {
  }
}
