/**
 * Input-stream decorators that keep their own bookkeeping over a source
 * stream: a forward-only skipper that counts the bytes it has consumed,
 * and a buffered reader that serves reads from an internal buffer.
 */
module Streams {
  import opened Common

  /**
   * The stream being decorated: a finite byte sequence and a read position.
   * The real sources (files, other decorators) are not part of this model;
   * this one delivers as many bytes as are asked for while any remain, and
   * clamps the positions it is sent to.
   */
  class ByteSource {
    const data: seq<byte>
    var pos: nat

    ghost predicate Valid()
      reads this
    {
      pos <= |data|
    }

    constructor (data: seq<byte>)
      ensures this.data == data && pos == 0 && Valid()
    {
      this.data := data;
      pos := 0;
    }

    /** The bytes still to be read. */
    function Remaining(): (r: seq<byte>)
      reads this
      requires Valid()
      ensures |r| == |data| - pos
    {
      data[pos..]
    }

    function NotEnded(): (b: bool)
      reads this
      requires Valid()
      ensures b <==> Remaining() != []
    {
      pos < |data|
    }

    function GetCurrentPosition(): nat
      reads this
    {
      pos
    }

    /** Delivers the next `n` bytes, or all that remain if fewer. */
    method Read(n: nat) returns (r: seq<byte>)
      requires Valid()
      modifies this
      ensures Valid()
      ensures r == old(Remaining())[..Min(n, |old(Remaining())|)]
      ensures pos == old(pos) + |r|
    {
      var k := Min(n, |data| - pos);
      r := data[pos..pos + k];
      pos := pos + k;
    }

    method Skip(n: nat)
      requires Valid()
      modifies this
      ensures Valid() && pos == Min(old(pos) + n, |data|)
    {
      pos := Min(pos + n, |data|);
    }

    method SetPosition(offset: int)
      modifies this
      ensures Valid() && pos == Clamp(offset, |data|)
    {
      pos := Clamp(offset, |data|);
    }

    method SetPositionFromEnd(offset: int)
      modifies this
      ensures Valid() && pos == Clamp(|data| - offset, |data|)
    {
      pos := Clamp(|data| - offset, |data|);
    }
  }

  /** `p` brought into `0..n`. */
  function Clamp(p: int, n: nat): (r: nat)
    ensures r <= n
    ensures 0 <= p <= n ==> r == p
  {
    if p < 0 then 0 else Min(p, n)
  }

  /**
   * `InputStreamSkipperStream`: counts the bytes read through it so that it
   * can skip forward to an absolute position by reading and discarding.
   */
  class InputStreamSkipperStream {
    var source: ByteSource?
    /** `mAmountRead`. */
    var amountRead: int

    ghost predicate Valid()
      reads this, source
    {
      source != null ==> source.Valid()
    }

    /** A skipper with no source; its counter is modelled as 0. */
    constructor ()
      ensures source == null && amountRead == 0 && Valid()
    {
      source := null;
      amountRead := 0;
    }

    constructor Assigned(s: ByteSource?)
      requires s != null ==> s.Valid()
      ensures source == s && amountRead == 0 && Valid()
    {
      source := s;
      amountRead := 0;
    }

    /** Takes a new source and restarts the count. */
    method Assign(s: ByteSource?)
      modifies this
      ensures source == s && amountRead == 0
    {
      source := s;
      amountRead := 0;
    }

    /** Forwards the read to the source and counts what it delivered. */
    method Read(n: nat) returns (r: seq<byte>)
      requires source != null && Valid()
      modifies this, source
      ensures source == old(source) && Valid()
      ensures r == old(source.Remaining())[..Min(n, |old(source.Remaining())|)]
      ensures source.pos == old(source.pos) + |r|
      ensures amountRead == old(amountRead) + |r|
    {
      r := source.Read(n);
      amountRead := amountRead + |r|;
    }

    function NotEnded(): (b: bool)
      reads this, source
      requires Valid()
      ensures b <==> source != null && source.pos < |source.data|
    {
      if source != null then source.NotEnded() else false
    }

    /** Only positions at or after the bytes already read can be reached. */
    function CanSkipTo(position: int): (b: bool)
      reads this
    {
      amountRead <= position
    }

    /** Bytes `SkipBy(n)` can consume: `n`, or fewer if the source ends first. */
    function SkipAmount(n: int): (k: nat)
      reads this, source
      requires Valid()
      ensures k <= if n < 0 then 0 else n
      ensures source == null ==> k == 0
    {
      if source == null || n <= 0 then 0 else Min(n, |source.data| - source.pos)
    }

    /** Reads and discards one byte at a time until `n` are gone or the source ends. */
    method SkipBy(n: int)
      requires Valid()
      modifies this, source
      ensures source == old(source) && Valid()
      ensures amountRead == old(amountRead) + old(SkipAmount(n))
      ensures source != null ==> source.pos == old(source.pos) + old(SkipAmount(n))
    {
      var left := n;
      ghost var k := SkipAmount(n);
      while NotEnded() && left > 0
        invariant source == old(source) && Valid()
        invariant left <= n && (left < n ==> left >= 0)
        invariant source != null ==> source.pos == old(source.pos) + (n - left)
        invariant amountRead == old(amountRead) + (n - left)
        invariant n - left <= k
        invariant !NotEnded() || left <= 0 || n - left < k
        decreases if left < 0 then 0 else left
      {
        var b := Read(1);
        left := left - 1;
      }
    }

    /**
     * Skips forward to `position`; a position behind the bytes already read
     * is ignored.
     */
    method SkipTo(position: int)
      requires Valid()
      modifies this, source
      ensures source == old(source) && Valid()
      ensures !old(CanSkipTo(position)) ==> amountRead == old(amountRead) && (source != null ==> unchanged(source))
      ensures old(CanSkipTo(position)) ==> amountRead == old(amountRead) + old(SkipAmount(position - amountRead))
      ensures old(CanSkipTo(position)) && source != null ==>
        source.pos == old(source.pos) + old(SkipAmount(position - amountRead))
      ensures (old(CanSkipTo(position)) && source != null
        && position - old(amountRead) <= |source.data| - old(source.pos)) ==> amountRead == position
    {
      if !CanSkipTo(position) {
        return;
      }
      SkipBy(position - amountRead);
    }

    /** Restarts the count; the source is not touched. */
    method Reset()
      modifies this
      ensures amountRead == 0 && source == old(source)
    {
      amountRead := 0;
    }

    function GetCurrentPosition(): int
      reads this
    {
      amountRead
    }
  }

  /** Cutting the first part of a concatenation at `k`. */
  lemma TakeDropAppend(a: seq<byte>, k: nat, b: seq<byte>)
    requires k <= |a|
    ensures a + b == a[..k] + (a[k..] + b)
  {
    assert a == a[..k] + a[k..];
  }

  /** Dropping the first `n` bytes of a slice. */
  lemma DropOfSlice(d: seq<byte>, lo: nat, hi: nat, n: nat)
    requires lo + n <= hi <= |d|
    ensures d[lo..hi][n..] == d[lo + n..hi]
  {
  }

  /** Dropping the first `n` bytes of two runs one after the other. */
  lemma DropAcross(b: seq<byte>, r: seq<byte>, n: nat)
    requires n <= |b| + |r|
    ensures n <= |b| ==> (b + r)[n..] == b[n..] + r
    ensures n >= |b| ==> (b + r)[n..] == r[n - |b|..]
  {
  }

  /**
   * A read served first from `a`, then `b` from what follows it: together
   * they are the first bytes of `p`, as many as asked for or as there are.
   */
  lemma SplitRead(p: seq<byte>, a: seq<byte>, rem: seq<byte>, b: seq<byte>, rest: seq<byte>, n: nat)
    requires p == a + rem && rem == b + rest && |a| < n && |b| == Min(n - |a|, |rem|)
    ensures |a + b| == Min(n, |p|) && a + b == p[..|a + b|] && rest == p[|a + b|..]
  {
    assert p == (a + b) + rest;
  }

  /**
   * `InputBufferedStream`: reads from its source a buffer at a time and
   * serves reads from the unread part of the buffer, `currentIndex` up to
   * `lastAvailable`.
   */
  class InputBufferedStream {
    /** `mBuffer`. */
    const buffer: array<byte>
    /** `mCurrentBufferIndex`: the next unread buffered byte. */
    var currentIndex: nat
    /** `mLastAvailableIndex`: the end of the buffered bytes. */
    var lastAvailable: nat
    var source: ByteSource?

    ghost predicate Valid()
      reads this, source
    {
      && currentIndex <= lastAvailable <= buffer.Length
      && 0 < buffer.Length
      && (source != null ==> source.Valid())
    }

    /** The unread buffered bytes. */
    ghost function Buffered(): (r: seq<byte>)
      reads this, buffer
      requires currentIndex <= lastAvailable <= buffer.Length
      ensures |r| == lastAvailable - currentIndex
    {
      buffer[currentIndex..lastAvailable]
    }

    /** The bytes the stream will deliver: the unread buffered bytes, then the source's. */
    ghost function Pending(): seq<byte>
      reads this, buffer, source
      requires Valid()
    {
      Buffered() + (if source == null then [] else source.Remaining())
    }

    /**
     * The buffered bytes are the ones just before the source's position, so
     * the stream's logical position is the source's position less what is
     * left in the buffer.
     */
    ghost predicate Coherent()
      reads this, buffer, source
      requires Valid()
    {
      && source != null
      && lastAvailable - currentIndex <= source.pos
      && Buffered() == source.data[source.pos - (lastAvailable - currentIndex)..source.pos]
    }

    /** `Initiate`: an empty buffer of `bufferSize` bytes over `s`. */
    constructor (s: ByteSource?, bufferSize: nat)
      requires 0 < bufferSize && (s != null ==> s.Valid())
      ensures Valid() && fresh(buffer) && buffer.Length == bufferSize
      ensures source == s && currentIndex == 0 && lastAvailable == 0
      ensures s != null ==> Coherent() && Pending() == s.Remaining()
    {
      buffer := new byte[bufferSize];
      currentIndex, lastAvailable := 0, 0;
      source := s;
    }

    /** Takes a new source; the buffer end is not reset. */
    method Assign(s: ByteSource?)
      requires s != null ==> s.Valid()
      modifies this
      ensures source == s && currentIndex == 0 && lastAvailable == old(lastAvailable)
    {
      source := s;
      currentIndex := 0;
    }

    /** Without a source nothing is read; otherwise the next bytes of `Pending()`. */
    method Read(n: nat) returns (r: seq<byte>)
      requires Valid()
      modifies this, buffer, source
      ensures Valid() && source == old(source)
      ensures source == null ==> r == []
      ensures source != null ==> |r| == Min(n, |old(Pending())|)
      ensures r == old(Pending())[..|r|]
      ensures Pending() == old(Pending())[|r|..]
      ensures old(Coherent()) ==> Coherent()
    {
      if source == null {
        return [];
      }
      if n <= lastAvailable - currentIndex {
        r := buffer[currentIndex..currentIndex + n];
        currentIndex := currentIndex + n;
        assert old(Pending()) == r + Pending();
        return;
      }
      r := ReadBeyondBuffer(n);
    }

    /** `Read` when the request is longer than what is buffered. */
    method ReadBeyondBuffer(n: nat) returns (r: seq<byte>)
      requires Valid() && source != null && n > lastAvailable - currentIndex
      modifies this, buffer, source
      ensures Valid() && source == old(source)
      ensures |r| == Min(n, |old(Pending())|)
      ensures r == old(Pending())[..|r|]
      ensures Pending() == old(Pending())[|r|..]
      ensures old(Coherent()) ==> Coherent()
    {
      ghost var pending0 := Pending();
      r := buffer[currentIndex..lastAvailable];
      currentIndex := lastAvailable;
      ghost var rem0 := source.Remaining();
      assert pending0 == r + rem0 && Pending() == rem0;
      if source.NotEnded() {
        var more := ReadThroughEmptyBuffer(n - |r|, rem0);
        SplitRead(pending0, r, rem0, more, Pending(), n);
        r := r + more;
      } else {
        SplitRead(pending0, r, rem0, [], Pending(), n);
      }
    }

    /**
     * The rest of a long read once the buffer is drained: whole buffers'
     * worth straight from the source, then a refill of the buffer from which
     * the remainder is served.
     */
    method ReadThroughEmptyBuffer(wanted: nat, ghost rem0: seq<byte>) returns (r: seq<byte>)
      requires Valid() && source != null && currentIndex == lastAvailable
      requires rem0 == source.Remaining()
      modifies this, buffer, source
      ensures Valid() && source == old(source)
      ensures |r| == Min(wanted, |rem0|) && rem0 == r + Pending()
      ensures Coherent()
    {
      var toBuffer := wanted % buffer.Length;
      assert toBuffer < buffer.Length;
      r := source.Read(wanted - toBuffer);
      if !source.NotEnded() {
        return;
      }
      ghost var rem1 := source.Remaining();
      assert rem0 == r + rem1 && |r| == wanted - toBuffer;
      var tail := RefillAndServe(toBuffer, rem1);
      r := r + tail;
    }

    /** Refills the empty buffer from the source and serves its first `n` bytes. */
    method RefillAndServe(n: nat, ghost rem0: seq<byte>) returns (r: seq<byte>)
      requires Valid() && source != null && currentIndex == lastAvailable && n < buffer.Length
      requires rem0 == source.Remaining()
      modifies this, buffer, source
      ensures Valid() && source == old(source)
      ensures |r| == Min(n, |rem0|) && rem0 == r + Pending()
      ensures Coherent()
    {
      ghost var pos0 := source.pos;
      var chunk := source.Read(buffer.Length);
      ghost var rest := source.Remaining();
      assert rem0 == chunk + rest;
      assert chunk == source.data[pos0..source.pos];
      Refill(chunk);
      var k := Min(n, lastAvailable);
      r := buffer[0..k];
      currentIndex := k;
      assert r == chunk[..k] && Buffered() == chunk[k..];
      DropOfSlice(source.data, pos0, source.pos, k);
      TakeDropAppend(chunk, k, rest);
    }

    /** Copies a chunk from the source to the start of the buffer. */
    method Refill(chunk: seq<byte>)
      requires Valid() && |chunk| <= buffer.Length
      modifies this, buffer
      ensures Valid() && source == old(source)
      ensures currentIndex == 0 && lastAvailable == |chunk| && Buffered() == chunk
    {
      forall k | 0 <= k < |chunk| {
        buffer[k] := chunk[k];
      }
      lastAvailable := |chunk|;
      currentIndex := 0;
    }

    function NotEnded(): (b: bool)
      reads this, source
      requires Valid() && source != null
      ensures b <==> source.pos < |source.data| || currentIndex != lastAvailable
    {
      source.NotEnded() || currentIndex != lastAvailable
    }

    /** Skips within the buffer, or drains it and skips the rest on the source. */
    method Skip(n: nat)
      requires Valid() && (source != null || n <= lastAvailable - currentIndex)
      modifies this, source
      ensures Valid() && source == old(source)
      ensures n <= old(lastAvailable - currentIndex) ==> currentIndex == old(currentIndex) + n && (source != null ==> unchanged(source))
      ensures Pending() == old(Pending())[Min(n, |old(Pending())|)..]
      ensures old(Coherent()) ==> Coherent()
    {
      if n <= lastAvailable - currentIndex {
        SkipBuffered(n);
      } else {
        SkipPastBuffer(n);
      }
    }

    /** A skip that the buffered bytes cover. */
    method SkipBuffered(n: nat)
      requires Valid() && n <= lastAvailable - currentIndex
      modifies this
      ensures Valid() && source == old(source) && lastAvailable == old(lastAvailable)
      ensures currentIndex == old(currentIndex) + n
      ensures Pending() == old(Pending())[Min(n, |old(Pending())|)..]
      ensures old(Coherent()) ==> Coherent()
    {
      ghost var b0, r0 := Buffered(), if source == null then [] else source.Remaining();
      ghost var coherent := Coherent();
      currentIndex := currentIndex + n;
      assert Buffered() == b0[n..];
      DropAcross(b0, r0, n);
      if coherent {
        DropOfSlice(source.data, source.pos - |b0|, source.pos, n);
      }
    }

    /** A skip past the buffered bytes: drains the buffer and skips on the source. */
    method SkipPastBuffer(n: nat)
      requires Valid() && source != null && n > lastAvailable - currentIndex
      modifies this, source
      ensures Valid() && source == old(source)
      ensures Pending() == old(Pending())[Min(n, |old(Pending())|)..]
      ensures old(Coherent()) ==> Coherent()
    {
      ghost var b0, r0, p0 := Buffered(), source.Remaining(), source.pos;
      assert old(Pending()) == b0 + r0;
      var rest := n - (lastAvailable - currentIndex);
      currentIndex := lastAvailable;
      source.Skip(rest);
      ghost var k := Min(rest, |r0|);
      assert source.pos == p0 + k;
      DropOfSlice(source.data, p0, |source.data|, k);
      assert Pending() == r0[k..];
      DropAcross(b0, r0, |b0| + k);
      assert Min(n, |b0 + r0|) == |b0| + k;
    }

    /** Empties the buffer and moves the source. */
    method SetPosition(offset: int)
      requires Valid() && source != null
      modifies this, source
      ensures Valid() && source == old(source)
      ensures currentIndex == 0 && lastAvailable == 0
      ensures source.pos == Clamp(offset, |source.data|)
      ensures Pending() == source.Remaining() && Coherent()
    {
      lastAvailable, currentIndex := 0, 0;
      source.SetPosition(offset);
    }

    /** Empties the buffer and moves the source relative to its end. */
    method SetPositionFromEnd(offset: int)
      requires Valid() && source != null
      modifies this, source
      ensures Valid() && source == old(source)
      ensures currentIndex == 0 && lastAvailable == 0
      ensures source.pos == Clamp(|source.data| - offset, |source.data|)
      ensures Pending() == source.Remaining() && Coherent()
    {
      lastAvailable, currentIndex := 0, 0;
      source.SetPositionFromEnd(offset);
    }

    /**
     * The source's position less the unread buffered bytes; when the buffer
     * holds the bytes just before the source's position, the pending bytes
     * start there.
     */
    function GetCurrentPosition(): (p: int)
      reads this, buffer, source
      requires Valid() && source != null
      ensures Coherent() ==> 0 <= p <= |source.data| && source.data[p..] == Pending()
    {
      source.pos - (lastAvailable - currentIndex)
    }
  }
}
