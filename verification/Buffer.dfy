/**
  `white::Buffer`: a byte queue in a growing container, with one slack byte in
  front of the readable bytes and zeros behind them.
 */
module Buffers {

  /** What `readv` reports: the bytes it delivered, or a failure. */
  datatype ReadResult = Received(bytes: string) | Failed {
    function Delivered(): string {
      if Failed? then "" else bytes
    }

    function Code(): int {
      if Failed? then -1 else |bytes|
    }
  }

  function Zeros(n: nat): string {
    seq(n, _ => '\0')
  }

  lemma MovedToFront(c: string, read: nat, write: nat)
    requires 1 <= read <= write <= |c|
    ensures var n := 1 + write - read;
            var moved := c[read - 1..write] + c[n..];
            var cleared := moved[..n] + Zeros(|moved| - n);
            && |moved| == |c| == |cleared|
            && cleared[0] == c[read - 1] && cleared[1..n] == c[read..write]
            && forall i :: n <= i < |c| ==> cleared[i] == '\0'
  {
    var n := 1 + write - read;
    var moved := c[read - 1..write] + c[n..];
    assert moved[..n] == c[read - 1..write];
    assert c[read - 1..write][1..] == c[read..write];
  }

  class Buffer {
    var container: string
    var readIdx: nat
    var writeIdx: nat

    /** The bytes behind `writeIdx` are always zero, and `container[readIdx - 1]` always exists. */
    ghost predicate Valid()
      reads this
    {
      && 2 <= |container|
      && 1 <= readIdx <= writeIdx <= |container|
      && forall i :: writeIdx <= i < |container| ==> container[i] == '\0'
    }

    /** The byte queue. */
    ghost function Contents(): string
      requires Valid()
      reads this
    {
      container[readIdx..writeIdx]
    }

    /** The byte that was consumed last: the parser looks behind at it. */
    ghost function Slack(): char
      requires Valid()
      reads this
    {
      container[readIdx - 1]
    }

    /** There is a zero behind the contents, so that they are a C string. */
    predicate Terminated()
      requires Valid()
      reads this
    {
      writeIdx < |container|
    }

    /** With `n` bytes more the contents reach the end of the container, as it is or after moving them to the front. */
    static predicate Fills(n: nat, writable: nat, readIdx: nat) {
      n == writable || n + 1 == writable + readIdx
    }

    constructor (size: nat)
      requires size >= 2
      ensures Valid() && Contents() == "" && Slack() == '\0' && |container| == size && Terminated()
      ensures WritableBytes() == size - 1
    {
      container := Zeros(size);
      readIdx, writeIdx := 1, 1;
    }

    function WritableBytes(): (n: nat)
      requires Valid()
      reads this
    {
      |container| - writeIdx
    }

    function ReadableBytes(): (n: nat)
      requires Valid()
      reads this
      ensures n == |Contents()|
    {
      writeIdx - readIdx
    }

    function PrependableBytes(): nat
      reads this
    {
      readIdx
    }

    method Swap(buff: Buffer)
      requires Valid() && buff.Valid() && buff != this
      modifies this, buff
      ensures Valid() && buff.Valid()
      ensures Contents() == old(buff.Contents()) && Slack() == old(buff.Slack())
      ensures buff.Contents() == old(Contents()) && buff.Slack() == old(Slack())
    {
      container, buff.container := buff.container, container;
      readIdx, buff.readIdx := buff.readIdx, readIdx;
      writeIdx, buff.writeIdx := buff.writeIdx, writeIdx;
    }

    /** Asking for more than there is leaves the buffer alone. */
    method Retrieve(len: nat)
      requires Valid()
      modifies this`readIdx
      ensures Valid()
      ensures readIdx == old(readIdx) + if len > |old(Contents())| then 0 else len
      ensures len > |old(Contents())| ==> Contents() == old(Contents()) && Slack() == old(Slack())
      ensures len <= |old(Contents())| ==> Contents() == old(Contents())[len..]
      ensures 0 < len <= |old(Contents())| ==> Slack() == old(Contents())[len - 1]
      ensures len == 0 ==> Slack() == old(Slack())
    {
      if len > ReadableBytes() {
        return;
      }
      readIdx := readIdx + len;
    }

    method Clear()
      requires Valid()
      modifies this
      ensures Valid() && Contents() == "" && Slack() == '\0' && |container| == old(|container|) && Terminated()
      ensures WritableBytes() == |container| - 1
    {
      container := Zeros(|container|);
      writeIdx, readIdx := 1, 1;
    }

    /** Everything of `Valid` but the zero tail, which starts only `len` bytes later. */
    ghost predicate Holds(len: nat)
      reads this
    {
      && 2 <= |container|
      && 1 <= readIdx <= writeIdx <= writeIdx + len <= |container|
      && forall i :: writeIdx + len <= i < |container| ==> container[i] == '\0'
    }

    /** Counts bytes that have been stored behind the contents. */
    method HasWritten(len: nat)
      requires Holds(len)
      modifies this`writeIdx
      ensures Valid() && writeIdx == old(writeIdx) + len
      ensures Contents() == container[readIdx..writeIdx]
    {
      writeIdx := writeIdx + len;
    }

    /**
      Room for `len` more bytes, by growing, or by moving the contents and their
      slack byte to the front.  Moving happens only when at least one byte in
      front of the slack byte is free, so source and destination differ.
     */
    method MakeSpace(len: nat)
      requires Valid() && WritableBytes() < len
      modifies this
      ensures Valid() && Contents() == old(Contents()) && Slack() == old(Slack())
      ensures WritableBytes() >= len
      ensures WritableBytes() == if old(WritableBytes() + readIdx) <= len then len + 1 else old(WritableBytes() + readIdx) - 1
      ensures readIdx != old(readIdx) ==> old(readIdx) >= 2 && readIdx == 1 && |container| == old(|container|)
      ensures readIdx == old(readIdx) ==> |container| > old(|container|) && WritableBytes() == len + 1
    {
      if WritableBytes() + PrependableBytes() < len + 1 {
        container := container + Zeros(writeIdx + len + 1 - |container|);
      } else {
        Compact();
      }
    }

    /** Moves the contents and their slack byte to the front and fills up with zeros. */
    method Compact()
      requires Valid()
      modifies this
      ensures Valid() && Contents() == old(Contents()) && Slack() == old(Slack())
      ensures readIdx == 1 && writeIdx == 1 + |old(Contents())| && |container| == old(|container|)
    {
      MovedToFront(container, readIdx, writeIdx);
      var readable := ReadableBytes();
      container := container[readIdx - 1..writeIdx] + container[1 + readable..];
      writeIdx := 1 + readable;
      readIdx := 1;
      container := container[..writeIdx] + Zeros(|container| - writeIdx);
    }

    method EnsureWriteable(len: nat)
      requires Valid()
      modifies this
      ensures Valid() && Contents() == old(Contents()) && Slack() == old(Slack())
      ensures WritableBytes() >= len
      ensures old(WritableBytes()) >= len ==>
                container == old(container) && readIdx == old(readIdx) && writeIdx == old(writeIdx)
      ensures old(WritableBytes()) < len ==>
                WritableBytes() == if old(WritableBytes() + readIdx) <= len then len + 1 else old(WritableBytes() + readIdx) - 1
    {
      if WritableBytes() < len {
        MakeSpace(len);
      }
    }

    /** The bytes go to the end of the queue; the container grows only if they do not fit. */
    method Append(bytes: string)
      requires Valid()
      modifies this
      ensures Valid() && Contents() == old(Contents()) + bytes && Slack() == old(Slack())
      ensures |bytes| <= old(WritableBytes()) ==>
                |container| == old(|container|) && WritableBytes() == old(WritableBytes()) - |bytes|
      ensures Terminated() <==> !Fills(|bytes|, old(WritableBytes()), old(readIdx))
    {
      EnsureWriteable(|bytes|);
      Store(bytes);
      HasWritten(|bytes|);
    }

    /** `std::copy` to the write position, or what the kernel does there; `HasWritten` follows. */
    method Store(bytes: string)
      requires Valid() && |bytes| <= WritableBytes()
      modifies this`container
      ensures Holds(|bytes|) && |container| == old(|container|)
      ensures container[..writeIdx] == old(container[..writeIdx])
      ensures container[readIdx..writeIdx + |bytes|] == old(Contents()) + bytes
    {
      container := container[..writeIdx] + bytes + container[writeIdx + |bytes|..];
    }

    /**
      One `readv` into the writable bytes and, beyond them, an overflow area of
      65536 bytes.  `result` is what the kernel delivers; the return value is
      the number of bytes, or -1.
     */
    method ReadFromFd(result: ReadResult) returns (len: int)
      requires Valid()
      requires |result.Delivered()| <= WritableBytes() + 65536
      modifies this
      ensures Valid() && Slack() == old(Slack())
      ensures Contents() == old(Contents()) + result.Delivered()
      ensures len == result.Code()
      ensures Terminated() <==> !Fills(|result.Delivered()|, old(WritableBytes()), old(readIdx))
      ensures |result.Delivered()| < old(WritableBytes()) ==>
                WritableBytes() == old(WritableBytes()) - |result.Delivered()|
    {
      var writable := WritableBytes();
      len := result.Code();
      var bytes := result.Delivered();
      if len < 0 {
        return;
      } else if len < writable {
        Store(bytes);
        HasWritten(len);
      } else {
        ghost var before := Contents();
        var direct, overflow := bytes[..writable], bytes[writable..];
        Store(direct);
        writeIdx := |container|;
        Append(overflow);
        assert before + (direct + overflow) == (before + direct) + overflow;
      }
    }

    /** One `write`, of which the kernel accepts `accepted` bytes, or -1. */
    method WriteToFd(accepted: int) returns (len: int)
      requires Valid() && -1 <= accepted <= ReadableBytes()
      modifies this`readIdx
      ensures Valid() && len == accepted
      ensures Contents() == old(Contents())[if accepted < 0 then 0 else accepted..]
    {
      len := accepted;
      if len < 0 {
        return;
      }
      readIdx := readIdx + len;
    }
  }
}
