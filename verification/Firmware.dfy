/** Firmware loading: every image of the package is copied to the device through one DMA
  buffer, chunk by chunk, and the device is started when all of them are there.

  What the device does with a chunk is a parameter: result answers the n-th transfer, and a
  transfer that fails leaves behind whatever wreck says. */
module Firmware {
  import opened Common

  const MAX_TRANSFER: nat := 0x30_0000  // MAX_TRANSFER_SIZE

  /** The memory of the device, by address. */
  type Memory = map<nat, byte>

  /** An image of the package: where it goes, and its bytes. Sizes fit an int. */
  datatype Image = Image(base: nat, code: seq<byte>)

  predicate SizesFit(images: seq<Image>) {
    forall i | 0 <= i < |images| :: |images[i].code| < 0x8000_0000
  }

  /** Memory after one write of all the bytes, from address at on. */
  function Write(mem: Memory, at: nat, bytes: seq<byte>): Memory {
    if bytes == [] then mem
    else
      var n := |bytes| - 1;
      Write(mem, at, bytes[..n])[at + n := bytes[n]]
  }

  /** Memory after each image was written whole, in package order. */
  function WriteAll(mem: Memory, images: seq<Image>): Memory {
    if images == [] then mem
    else
      var n := |images| - 1;
      Write(WriteAll(mem, images[..n]), images[n].base, images[n].code)
  }

  /** Two writes that meet are one. */
  lemma {:induction false} WriteJoin(mem: Memory, at: nat, a: seq<byte>, b: seq<byte>)
    ensures Write(Write(mem, at, a), at + |a|, b) == Write(mem, at, a + b)
  {
    if b == [] {
      assert a + b == a;
    } else {
      var n := |b| - 1;
      WriteJoin(mem, at, a, b[..n]);
      assert (a + b)[..|a + b| - 1] == a + b[..n];
    }
  }

  lemma {:induction false} WriteAt(mem: Memory, m: Image, a: nat)
    ensures var w := Write(mem, m.base, m.code);
      if Covers(m, a) then a in w && w[a] == m.code[a - m.base]
      else (a in w <==> a in mem) && (a in w ==> w[a] == mem[a])
    decreases |m.code|
  {
    if m.code != [] {
      WriteAt(mem, Image(m.base, m.code[..|m.code| - 1]), a);
    }
  }

  /** What whole-image loading means for a single address: the last image that covers it wins,
      and an address no image covers is untouched. */
  lemma {:induction false} LastImageWins(mem: Memory, images: seq<Image>, a: nat)
    ensures var m := WriteAll(mem, images);
      if exists i: nat :: i < |images| && Covers(images[i], a) then
        exists i: nat :: Winner(images, a, i) && a in m && m[a] == images[i].code[a - images[i].base]
      else (a in m <==> a in mem) && (a in m ==> m[a] == mem[a])
  {
    if images != [] {
      var n := |images| - 1;
      var front := images[..n];
      LastImageWins(mem, front, a);
      WriteAt(WriteAll(mem, front), images[n], a);
      if Covers(images[n], a) {
        assert Winner(images, a, n);
      } else if i: nat :| i < |images| && Covers(images[i], a) {
        assert Covers(front[i], a);
        var k: nat :| Winner(front, a, k) && WriteAll(mem, front)[a] == front[k].code[a - front[k].base];
        assert Winner(images, a, k);
      } else {
        assert forall i | 0 <= i < n :: front[i] == images[i];
      }
    }
  }

  predicate Covers(m: Image, a: nat) {
    m.base <= a < m.base + |m.code|
  }

  predicate Winner(images: seq<Image>, a: nat, i: nat) {
    && i < |images| && Covers(images[i], a)
    && forall k | i < k < |images| :: !Covers(images[k], a)
  }

  class Device {
    var memory: Memory
    var started: bool
    var transfers: nat             // how many chunks were handed over so far

    constructor (memory: Memory)
      ensures this.memory == memory && !started && transfers == 0
    {
      this.memory, started, transfers := memory, false, 0;
    }

    /** axcl_boot_device: the device fetches one chunk from the DMA buffer, which has room for
        MAX_TRANSFER bytes. */
    method BootDevice(dest: nat, chunk: seq<byte>, result: nat -> int, wreck: nat -> Memory) returns (ret: int)
      requires 0 < |chunk| <= MAX_TRANSFER
      modifies this
      ensures transfers == old(transfers) + 1 && started == old(started)
      ensures ret == result(old(transfers))
      ensures memory == if ret < 0 then old(memory) + wreck(old(transfers)) else Write(old(memory), dest, chunk)
    {
      ret := result(transfers);
      memory := if ret < 0 then memory + wreck(transfers) else Write(memory, dest, chunk);
      transfers := transfers + 1;
    }

    /** size bytes of the image, behind the first sent ones. */
    method SendChunk(image: Image, dest: nat, sent: nat, size: nat, result: nat -> int, wreck: nat -> Memory, ghost was: Memory)
      returns (ret: int)
      requires 0 < size <= MAX_TRANSFER && sent + size <= |image.code| && dest == image.base + sent
      requires memory == Write(was, image.base, image.code[..sent])
      modifies this
      ensures transfers == old(transfers) + 1 && started == old(started)
      ensures ret == result(old(transfers))
      ensures memory == if ret < 0 then old(memory) + wreck(old(transfers))
                        else Write(was, image.base, image.code[..sent + size])
    {
      var chunk := image.code[sent..sent + size];
      ret := BootDevice(dest, chunk, result, wreck);
      WriteJoin(was, image.base, image.code[..sent], chunk);
      assert image.code[..sent] + chunk == image.code[..sent + size];
    }

    /** The inner loop, with its own counters for what was sent and what is left. */
    method LoadImage(image: Image, was: int, result: nat -> int, wreck: nat -> Memory) returns (ret: int, ghost done: nat)
      requires |image.code| < 0x8000_0000 && was >= 0
      modifies this
      ensures started == old(started) && old(transfers) <= transfers
      ensures ret >= 0 ==> AllSucceed(result, old(transfers), transfers)
      ensures ret >= 0 ==> transfers == old(transfers) + Units(|image.code|, MAX_TRANSFER)
      ensures ret >= 0 ==> memory == Write(old(memory), image.base, image.code)
      ensures ret >= 0 ==> ret == if transfers == old(transfers) then was else result(transfers - 1)
      ensures ret < 0 ==> FirstFailure(result, old(transfers), transfers, ret)
      ensures ret < 0 ==> transfers <= old(transfers) + Units(|image.code|, MAX_TRANSFER)
      ensures done <= |image.code| && (ret >= 0 ==> done == |image.code|)
      ensures ret < 0 ==> memory == Write(old(memory), image.base, image.code[..done]) + wreck(transfers - 1)
    {
      var imgsize: nat, sent: nat, dest := |image.code|, 0, image.base;
      ret := was;
      assert Write(memory, dest, image.code[..0]) == memory;
      while imgsize > 0
        invariant ret >= 0 && imgsize + sent == |image.code| && dest == image.base + sent
        invariant memory == Write(old(memory), image.base, image.code[..sent])
        invariant started == old(started) && old(transfers) <= transfers
        invariant transfers + Units(imgsize, MAX_TRANSFER) == old(transfers) + Units(|image.code|, MAX_TRANSFER)
        invariant AllSucceed(result, old(transfers), transfers)
        invariant sent > 0 <==> transfers > old(transfers)
        invariant ret == if transfers == old(transfers) then was else result(transfers - 1)
      {
        var size := if imgsize < MAX_TRANSFER then imgsize else MAX_TRANSFER;
        ret := SendChunk(image, dest, sent, size, result, wreck, old(memory));
        if ret < 0 {
          return ret, sent;
        }
        dest, sent, imgsize := dest + size, sent + size, imgsize - size;
      }
      assert image.code[..sent] == image.code;
      done := sent;
    }

    /** One turn of the loop over the package, which began with memory was and with transfer first. */
    method LoadNext(images: seq<Image>, count: nat, prev: int, result: nat -> int, wreck: nat -> Memory,
                    ghost was: Memory, ghost first: nat) returns (ret: int)
      requires SizesFit(images) && count < |images| && prev >= 0 && first <= transfers
      requires memory == WriteAll(was, images[..count])
      requires transfers == first + Chunks(images[..count]) && AllSucceed(result, first, transfers)
      modifies this
      ensures started == old(started) && first <= old(transfers) <= transfers
      ensures ret >= 0 ==> memory == WriteAll(was, images[..count + 1])
      ensures ret >= 0 ==> transfers == first + Chunks(images[..count + 1]) && AllSucceed(result, first, transfers)
      ensures ret >= 0 ==> ret == if transfers == old(transfers) then prev else result(transfers - 1)
      ensures ret < 0 ==> FirstFailure(result, first, transfers, ret) && transfers <= first + Chunks(images)
    {
      ghost var done;
      ret, done := LoadImage(images[count], prev, result, wreck);
      assert images[..count + 1][..count] == images[..count];
      ChunksGrow(images, count + 1);
    }

    /** axcl_load_fwfile. buffer: what allocating the DMA buffer returned; images: the package,
        or nothing if there is no data. */
    method LoadFirmware(buffer: int, images: Option<seq<Image>>, result: nat -> int, wreck: nat -> Memory)
      returns (ret: int)
      requires images.Some? ==> SizesFit(images.value)
      modifies this
      ensures buffer < 0 || images.None? ==>
        ret == -1 && memory == old(memory) && transfers == old(transfers) && started == old(started)
      ensures ret >= 0 ==> images.Some? && started && memory == WriteAll(old(memory), images.value)
      ensures ret >= 0 ==> transfers == old(transfers) + Chunks(images.value) && AllSucceed(result, old(transfers), transfers)
      ensures ret >= 0 ==> ret == if transfers == old(transfers) then buffer else result(transfers - 1)
      ensures ret < 0 ==> started == old(started)
      ensures buffer >= 0 && images.Some? && ret < 0 ==> FirstFailure(result, old(transfers), transfers, ret)
      ensures buffer >= 0 && images.Some? && ret < 0 ==> transfers <= old(transfers) + Chunks(images.value)
    {
      if buffer < 0 || images.None? {
        return -1;
      }
      ret := buffer;
      var count: nat := 0;
      while count < |images.value|
        invariant count <= |images.value| && ret >= 0 && started == old(started) && old(transfers) <= transfers
        invariant memory == WriteAll(old(memory), images.value[..count])
        invariant transfers == old(transfers) + Chunks(images.value[..count])
        invariant AllSucceed(result, old(transfers), transfers)
        invariant ret == if transfers == old(transfers) then buffer else result(transfers - 1)
      {
        ret := LoadNext(images.value, count, ret, result, wreck, old(memory), old(transfers));
        if ret < 0 {
          return;
        }
        count := count + 1;
      }
      assert images.value[..count] == images.value;
      started := true;
    }
  }

  /** How many transfers a package takes. */
  function Chunks(images: seq<Image>): nat {
    if images == [] then 0
    else Chunks(images[..|images| - 1]) + Units(|images[|images| - 1].code|, MAX_TRANSFER)
  }

  lemma {:induction false} ChunksGrow(images: seq<Image>, n: nat)
    requires n <= |images|
    ensures Chunks(images[..n]) <= Chunks(images)
    decreases |images| - n
  {
    if n < |images| {
      ChunksGrow(images, n + 1);
      assert images[..n + 1][..n] == images[..n];
    } else {
      assert images[..n] == images;
    }
  }

  ghost predicate AllSucceed(result: nat -> int, from: nat, end: nat) {
    forall k | from <= k < end :: result(k) >= 0
  }

  /** The last transfer failed, with this result, and no other did. */
  ghost predicate FirstFailure(result: nat -> int, from: nat, end: nat, ret: int) {
    from < end && result(end - 1) == ret < 0 && AllSucceed(result, from, end - 1)
  }
}
