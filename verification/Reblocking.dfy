/** The two audio drivers that hand their device only whole blocks (src/audio_out/audio_sun_out.c,
    src/audio_out/audio_esd_out.c), and the specification both refine. */
module Reblocking {
  import opened Arithmetic
  import opened Bytes

  /** A device that takes every write completely. */
  class Device {
    var written: seq<byte>
    ghost var sizes: seq<nat>

    constructor ()
      ensures written == [] && sizes == []
    {
      written := [];
      sizes := [];
    }

    /** `writev`: several pieces in one call. */
    method WriteV(iov: seq<seq<byte>>) returns (n: nat)
      modifies this
      ensures written == old(written) + Gathered(iov) && n == |Gathered(iov)|
      ensures sizes == old(sizes) + [n]
    {
      written := written + Gathered(iov);
      n := |Gathered(iov)|;
      sizes := sizes + [n];
    }
  }

  function Gathered(iov: seq<seq<byte>>): seq<byte> {
    if iov == [] then [] else iov[0] + Gathered(iov[1..])
  }

  lemma GatherTwo(a: seq<byte>, b: seq<byte>)
    ensures Gathered([a]) == a && Gathered([a, b]) == a + b
  {
    assert [a][1..] == [] && [a, b][1..] == [b] && [b][1..] == [];
    assert Gathered([b]) == b + [];
  }

  /** The vector both drivers build: the bytes held back, if any, and then the front of the new ones. */
  lemma GatherHeld(kept: seq<byte>, buf: seq<byte>, taken: nat)
    requires taken <= |buf|
    ensures Gathered((if |kept| > 0 then [kept] else []) + [buf[..taken]]) == (kept + buf)[..|kept| + taken]
    ensures (kept + buf)[|kept| + taken..] == buf[taken..]
  {
    var front := buf[..taken];
    GatherTwo(kept, front);
    GatherTwo(front, []);
    assert [kept] + [front] == [kept, front] && [] + [front] == [front];
    assert (kept + buf)[..|kept| + taken] == kept + front;
    assert |kept| == 0 ==> kept + front == front;
  }

  // ----- the specification -----

  /** The part of `n` bytes that whole blocks can carry. */
  function Whole(n: nat, block: nat): (w: nat)
    requires block > 0
    ensures w <= n < w + block && w % block == 0
  {
    WholeBlocks(n, block);
    n - n % block
  }

  /** What is held back when `all` has been received so far: the part after the last whole block. */
  function Held(all: seq<byte>, block: nat): seq<byte>
    requires block > 0
  {
    all[Whole(|all|, block)..]
  }

  /** What has been passed on. */
  function Passed(all: seq<byte>, block: nat): seq<byte>
    requires block > 0
  {
    all[..Whole(|all|, block)]
  }

  /** The specification in words: whatever is passed on and held back in this way is the only way to lose and
      reorder nothing, to pass on whole blocks, and to hold back less than one. */
  lemma SpecMeaning(all: seq<byte>, out: seq<byte>, kept: seq<byte>, block: nat)
    requires block > 0
    ensures (out == Passed(all, block) && kept == Held(all, block))
       <==> (out + kept == all && |out| % block == 0 && |kept| < block)
  {
    assert Passed(all, block) + Held(all, block) == all;
    if out + kept == all && |out| % block == 0 && |kept| < block {
      AddRemainders(|out|, |kept|, block);
      RemainderIs(|kept|, 0, |kept|, block);
      assert |out| == Whole(|all|, block);
      assert out == all[..|out|] && kept == all[|out|..];
    }
  }

  lemma WholeBlocks(n: nat, block: nat)
    requires block > 0
    ensures 0 <= n - n % block && (n - n % block) % block == 0 && n % block < block
  {
    RemainderIs(n - n % block, n / block, 0, block);
    MultipleAtLeast(n / block, block);
  }

  lemma EmptySpec(block: nat)
    requires block > 0
    ensures Held([], block) == [] == Passed([], block)
  {
  }

  /** One write on the specification: what goes out now is split off at the last block boundary. */
  lemma NextWrite(all: seq<byte>, buf: seq<byte>, block: nat)
    requires block > 0
    ensures var held := Held(all, block) + buf;
      && Held(all + buf, block) == held[Whole(|held|, block)..]
      && Passed(all + buf, block) == Passed(all, block) + held[..Whole(|held|, block)]
  {
    var held := Held(all, block) + buf;
    var done := |Passed(all, block)|;
    AddRemainders(done, |held|, block);
    assert all + buf == Passed(all, block) + held;
    assert |all + buf| == done + |held|;
    assert Whole(|all + buf|, block) == done + Whole(|held|, block);
  }

  /** Nothing but whole blocks was written: every single write was one. */
  ghost predicate OnlyWholeBlocks(sizes: seq<nat>, block: nat)
    requires block > 0
  {
    forall k :: 0 <= k < |sizes| ==> sizes[k] % block == 0
  }

  lemma OneMoreWrite(sizes: seq<nat>, n: nat, from: nat, block: nat)
    requires block > 0 && from <= |sizes| && OnlyWholeBlocks(sizes[from..], block) && n % block == 0
    ensures OnlyWholeBlocks((sizes + [n])[from..], block)
  {
  }

  lemma Reassociate(a: seq<byte>, b: seq<byte>, c: seq<byte>)
    ensures (a + b) + c == a + (b + c)
  {
  }

  const MIN_WRITE_SIZE: nat := 1024

  /** `sun_driver_t`: the bytes held back sit at the start of `buffer`. */
  class SunDriver {
    const device: Device
    const buffer: array<byte>
    var bufLen: nat
    /** what the device held when the driver was opened or last flushed, and all writes since */
    ghost var before: seq<byte>
    ghost var writesBefore: nat
    ghost var received: seq<byte>

    ghost predicate Valid()
      reads this, device, buffer
    {
      && buffer.Length == MIN_WRITE_SIZE && bufLen < MIN_WRITE_SIZE
      && buffer[..bufLen] == Held(received, MIN_WRITE_SIZE)
      && device.written == before + Passed(received, MIN_WRITE_SIZE)
      && writesBefore <= |device.sizes|
      && OnlyWholeBlocks(device.sizes[writesBefore..], MIN_WRITE_SIZE)
    }

    constructor (device: Device)
      ensures Valid() && this.device == device && fresh(buffer)
      ensures received == [] && before == device.written
    {
      this.device := device;
      buffer := new byte[MIN_WRITE_SIZE];
      bufLen := 0;
      before := device.written;
      writesBefore := |device.sizes|;
      received := [];
    }

    /** `sun_audio_write` */
    method Write(buf: seq<byte>) returns (r: int)
      requires Valid()
      modifies this`bufLen, this`received, buffer, device
      ensures Valid() && received == old(received) + buf
      ensures r == |buf|
    {
      hide Held, Passed, OnlyWholeBlocks, Gathered;
      NextWrite(received, buf, MIN_WRITE_SIZE);
      ghost var kept := buffer[..bufLen];
      ghost var written := device.written;
      received := received + buf;
      var rest := buf;
      var totalBytes := bufLen + |buf|;
      var remainder := totalBytes % MIN_WRITE_SIZE;
      totalBytes := totalBytes - remainder;
      ghost var at := Whole(|kept + buf|, MIN_WRITE_SIZE);
      assert totalBytes == at;
      if totalBytes > 0 {
        TakesWhole(totalBytes, MIN_WRITE_SIZE);
        var iov: seq<seq<byte>> := if bufLen > 0 then [buffer[..bufLen]] else [];
        var taken := totalBytes - bufLen;
        GatherHeld(kept, buf, taken);
        iov := iov + [buf[..taken]];
        bufLen := 0;
        rest := buf[taken..];
        OneMoreWrite(device.sizes, at, writesBefore, MIN_WRITE_SIZE);
        var n := device.WriteV(iov);
        assert n == totalBytes;
        if n != totalBytes {
          return -1;
        }
      }
      Reassociate(before, old(Passed(received, MIN_WRITE_SIZE)), (kept + buf)[..at]);
      assert device.written == written + (kept + buf)[..at];
      assert buffer[..bufLen] + rest == (kept + buf)[at..];
      if |rest| > 0 {
        CopyInto(buffer, bufLen, rest);
        bufLen := bufLen + |rest|;
      }
      r := |buf|;
    }

    /** `sun_audio_flush` */
    method Flush()
      requires Valid()
      modifies this, device
      ensures Valid() && received == [] && before == device.written == old(before + received)
    {
      hide Held, Passed, Whole, Gathered;
      Reassociate(before, Passed(received, MIN_WRITE_SIZE), Held(received, MIN_WRITE_SIZE));
      EmptySpec(MIN_WRITE_SIZE);
      SpecMeaning(received, Passed(received, MIN_WRITE_SIZE), Held(received, MIN_WRITE_SIZE), MIN_WRITE_SIZE);
      if bufLen > 0 {
        GatherTwo(buffer[..bufLen], []);
        var _ := device.WriteV([buffer[..bufLen]]);
        bufLen := 0;
      }
      before := device.written;
      writesBefore := |device.sizes|;
      received := [];
    }
  }

  /** A positive number of whole blocks is at least one block. */
  lemma TakesWhole(n: nat, block: nat)
    requires block > 0 && n > 0 && n % block == 0
    ensures n >= block
  {
  }

  /** `memcpy` */
  method CopyInto(a: array<byte>, at: nat, data: seq<byte>)
    requires at + |data| <= a.Length
    modifies a
    ensures a[..at + |data|] == old(a[..at]) + data
  {
    forall i | 0 <= i < |data| {
      a[at + i] := data[i];
    }
  }

  /** `esd_driver_t`; the block size ESD_BUF_SIZE is set by the server's headers. */
  class EsdDriver {
    const device: Device
    const block: nat
    const reblockBuf: array<byte>
    var reblockRem: nat
    var bytesInBuffer: nat
    ghost var before: seq<byte>
    ghost var writesBefore: nat
    ghost var received: seq<byte>

    ghost predicate Valid()
      reads this, device, reblockBuf
    {
      && block > 0 && reblockBuf.Length == block && reblockRem < block
      && reblockBuf[..reblockRem] == Held(received, block)
      && device.written == before + Passed(received, block)
      && writesBefore <= |device.sizes|
      && OnlyWholeBlocks(device.sizes[writesBefore..], block)
    }

    constructor (device: Device, block: nat)
      requires block > 0
      ensures Valid() && this.device == device && this.block == block && fresh(reblockBuf)
      ensures received == [] && before == device.written && bytesInBuffer == 0
    {
      this.device := device;
      this.block := block;
      reblockBuf := new byte[block];
      reblockRem := 0;
      bytesInBuffer := 0;
      before := device.written;
      writesBefore := |device.sizes|;
      received := [];
    }

    /** The part of `ao_esd_write` under REBLOCK; `frames` is the frame buffer. */
    method Write(frames: seq<byte>)
      requires Valid()
      modifies this`reblockRem, this`received, this`bytesInBuffer, reblockBuf, device
      ensures Valid() && received == old(received) + frames
      ensures bytesInBuffer - old(bytesInBuffer) == |device.written| - old(|device.written|)
    {
      hide Held, Passed, OnlyWholeBlocks, Gathered;
      NextWrite(received, frames, block);
      ghost var kept := reblockBuf[..reblockRem];
      ghost var whole := Whole(|kept + frames|, block);
      Reassociate(before, Passed(received, block), (kept + frames)[..whole]);
      received := received + frames;
      if reblockRem + |frames| < block {
        RemainderIs(|kept + frames|, 0, |kept + frames|, block);
        CopyInto(reblockBuf, reblockRem, frames);
        reblockRem := reblockRem + |frames|;
        assert reblockBuf[..reblockRem] == (kept + frames)[whole..];
        assert (kept + frames)[..whole] == [];
        return;
      }
      WholeIsPositive(|kept + frames|, block);
      SendBlocks(frames, kept, whole);
    }

    /** The second half of `ao_esd_write`: at least one block is complete. */
    method SendBlocks(frames: seq<byte>, ghost kept: seq<byte>, ghost whole: nat)
      requires block > 0 && reblockBuf.Length == block && reblockRem < block
      requires kept == reblockBuf[..reblockRem] && whole == Whole(|kept + frames|, block) && whole >= block
      requires writesBefore <= |device.sizes| && OnlyWholeBlocks(device.sizes[writesBefore..], block)
      modifies this`reblockRem, this`bytesInBuffer, reblockBuf, device
      ensures device.written == old(device.written) + (kept + frames)[..whole]
      ensures writesBefore <= |device.sizes| && OnlyWholeBlocks(device.sizes[writesBefore..], block)
      ensures reblockRem < block && reblockBuf[..reblockRem] == (kept + frames)[whole..]
      ensures bytesInBuffer == old(bytesInBuffer) + whole
    {
      hide OnlyWholeBlocks, Gathered;
      var iov: seq<seq<byte>> := [];
      var numBytes := 0;
      if reblockRem > 0 {
        iov := [reblockBuf[..reblockRem]];
        numBytes := reblockRem;
        reblockRem := 0;
      }
      var rem := (numBytes + |frames|) % block;
      assert rem == |kept + frames| - whole;
      if |frames| > rem {
        iov := iov + [frames[..|frames| - rem]];
        numBytes := numBytes + |frames| - rem;
      }
      GatherHeld(kept, frames, |frames| - rem);
      OneMoreWrite(device.sizes, whole, writesBefore, block);
      var n := device.WriteV(iov);
      if n > 0 {
        bytesInBuffer := bytesInBuffer + n;
      }
      if rem > 0 {
        var from := |iov[|iov| - 1]|;
        assert frames[from..] == (kept + frames)[whole..];
        CopyInto(reblockBuf, 0, frames[from..from + rem]);
        reblockRem := rem;
      }
    }
  }

  /** Two drivers with one block size that were given the same bytes, in writes of any sizes, have written the same
      bytes and hold the same bytes. */
  lemma DriversAgree(sun: SunDriver, esd: EsdDriver)
    requires sun.Valid() && esd.Valid() && esd.block == MIN_WRITE_SIZE
    requires sun.received == esd.received && sun.before == esd.before
    ensures sun.device.written == esd.device.written
    ensures sun.bufLen == esd.reblockRem && sun.buffer[..sun.bufLen] == esd.reblockBuf[..esd.reblockRem]
  {
  }

  lemma WholeIsPositive(n: nat, block: nat)
    requires 0 < block <= n
    ensures Whole(n, block) >= block
  {
  }
}
