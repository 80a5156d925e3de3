// Fastboot: downloads in USB packets of any size, and images flashed to the
// eMMC in several chunks.
module Fastboot {
  import opened Wrappers

  // start counts 512-byte sectors, length counts bytes.
  datatype Partition = Partition(start: nat, length: nat, writeEnv: bool)

  datatype Status =
    | Okay
    | DataPhase(size: nat)
    | InvalidSize
    | TooLarge
    | NoImage
    | NoPartition
    | NotSupported
    | ImageTooLarge
    | InitFailed
    | WriteFailed

  function Concat(pieces: seq<seq<Byte>>): seq<Byte> {
    if pieces == [] then [] else Concat(pieces[..|pieces| - 1]) + pieces[|pieces| - 1]
  }

  function Min(a: nat, b: nat): nat {
    if a < b then a else b
  }

  // The bytes from position `at` on replaced.
  function Written(s: seq<Byte>, at: nat, data: seq<Byte>): seq<Byte>
    requires at + |data| <= |s|
  {
    s[..at] + data + s[at + |data|..]
  }

  class Loader {
    const buffer: array<Byte>
    const disk: array<Byte>
    const partitions: seq<Partition>
    var download_size: nat
    var download_bytes: nat
    var multiflash_offset: nat
    var multiflash_ptn: Option<nat>
    // The responses sent to the host.
    ghost var sent: seq<Status>

    ghost predicate Valid()
      reads this
    {
      && buffer != disk && buffer.Length <= 0x8000_0000
      && download_bytes <= buffer.Length
      && (download_size > 0 ==> download_bytes < download_size <= buffer.Length)
      && (forall p | p in partitions :: p.start * 512 + p.length <= disk.Length && p.length < 0x8000_0000)
      && (multiflash_ptn.Some? ==>
            multiflash_ptn.value < |partitions| && multiflash_offset <= partitions[multiflash_ptn.value].length)
    }

    constructor (size: nat, disk: array<Byte>, partitions: seq<Partition>)
      requires size <= 0x8000_0000
      requires forall p | p in partitions :: p.start * 512 + p.length <= disk.Length && p.length < 0x8000_0000
      ensures Valid() && fresh(buffer) && buffer.Length == size && this.disk == disk && this.partitions == partitions
      ensures download_size == download_bytes == 0 && multiflash_ptn == None && sent == []
    {
      buffer := new Byte[size];
      this.disk, this.partitions := disk, partitions;
      download_size, download_bytes, multiflash_offset, multiflash_ptn, sent := 0, 0, 0, None, [];
    }

    // The "download:" command. Packets are commands only between downloads.
    method Download(size: nat)
      requires Valid() && download_size == 0
      modifies `download_size, `download_bytes, `sent
      ensures Valid() && download_bytes == 0
      ensures if 0 < size <= buffer.Length then download_size == size && sent == old(sent) + [DataPhase(size)]
              else download_size == 0 && sent == old(sent) + [if size == 0 then InvalidSize else TooLarge]
    {
      download_size, download_bytes := size, 0;
      var response;
      if download_size == 0 {
        response := InvalidSize;
      } else if download_size > buffer.Length {
        download_size := 0;
        response := TooLarge;
      } else {
        response := DataPhase(download_size);
      }
      sent := sent + [response];
    }

    // The USB device was reset: a download under way is given up. An image that
    // is being flashed is not; its next chunk still goes behind the others.
    method ResetHandler()
      requires Valid()
      modifies `download_size, `download_bytes
      ensures Valid() && download_size == download_bytes == 0
    {
      download_size, download_bytes := 0, 0;
    }

    // A packet while a download is under way. Bytes behind the end of the
    // download are dropped.
    method RxData(packet: seq<Byte>)
      requires Valid() && download_size > 0
      modifies `download_size, `download_bytes, `sent, buffer
      ensures Valid()
      ensures var n := Min(|packet|, old(download_size) - old(download_bytes));
              && download_bytes == old(download_bytes) + n
              && buffer[..] == Written(old(buffer[..]), old(download_bytes), packet[..n])
              && if download_bytes == old(download_size) then download_size == 0 && sent == old(sent) + [Okay]
                 else download_size == old(download_size) && sent == old(sent)
    {
      if |packet| == 0 {
        return;
      }
      var transfer_size := download_size - download_bytes;
      if |packet| < transfer_size {
        transfer_size := |packet|;
      }
      Copy(packet, transfer_size, buffer, download_bytes);
      download_bytes := download_bytes + transfer_size;
      if download_bytes >= download_size {
        download_size := 0;
        sent := sent + [Okay];
      }
    }

    static method Copy(src: seq<Byte>, n: nat, target: array<Byte>, at: nat)
      requires n <= |src| && at + n <= target.Length
      modifies target
      ensures target[..] == Written(old(target[..]), at, src[..n])
    {
      var i := 0;
      while i < n
        invariant i <= n
        invariant forall k | 0 <= k < target.Length ::
                    target[k] == if at <= k < at + i then src[k - at] else old(target[k])
      {
        target[at + i] := src[i];
        i := i + 1;
      }
    }

    // A whole download: packets arrive until it is complete. What is stored
    // and what is answered depends on the bytes only, not on their packets.
    method RxDownload(packets: seq<seq<Byte>>) returns (used: nat)
      requires Valid() && download_size > 0 && download_bytes == 0
      modifies `download_size, `download_bytes, `sent, buffer
      ensures Valid() && used <= |packets|
      ensures var all, size := Concat(packets), old(download_size);
              if |all| < size then
                download_bytes == |all| && download_size == size && sent == old(sent) && buffer[..|all|] == all
              else
                download_bytes == size && download_size == 0 && sent == old(sent) + [Okay]
                && buffer[..size] == all[..size]
    {
      used := 0;
      ghost var size := download_size;
      while used < |packets| && download_size > 0
        invariant Valid() && used <= |packets|
        invariant Received(Concat(packets[..used]), size)
        invariant sent == old(sent) + if download_size == 0 then [Okay] else []
      {
        assert packets[..used + 1][..used] == packets[..used];
        TakeMore(Concat(packets[..used]), packets[used], size);
        used := used + 1;
      }
      ghost var got, all := Concat(packets[..used]), Concat(packets);
      ConcatPrefix(packets, used);
      assert used == |packets| ==> packets[..used] == packets;
      assert |got| >= size ==> got[..size] == all[..|got|][..size] == all[..size];
      assert |got| < size ==> got[..|got|] == got;
    }

    // What is in the buffer after the bytes `all` have arrived.
    ghost predicate Received(all: seq<Byte>, size: nat)
      requires Valid()
      reads this, buffer
    {
      && size <= buffer.Length && download_bytes == Min(|all|, size)
      && buffer[..download_bytes] == all[..download_bytes]
      && download_size == if |all| < size then size else 0
    }

    method TakeMore(ghost all: seq<Byte>, packet: seq<Byte>, ghost size: nat)
      requires Valid() && download_size > 0 && Received(all, size)
      modifies `download_size, `download_bytes, `sent, buffer
      ensures Valid() && Received(all + packet, size)
      ensures sent == old(sent) + if download_size == 0 then [Okay] else []
    {
      RxData(packet);
    }

    // Writes the downloaded image, or a chunk of it. `initWorks` and
    // `writeWorks` are the card's answers; the image is not a sparse one.
    method WriteToPtnEmmc(p: Partition, offset: nat, initWorks: bool, writeWorks: bool)
      returns (ok: bool, response: Status)
      requires Valid() && p in partitions && offset + download_bytes <= p.length
      modifies disk
      ensures ok == (writeWorks && (offset == 0 ==> initWorks))
      ensures response == if ok then Okay else if offset == 0 && !initWorks then InitFailed else WriteFailed
      ensures disk[..] == if ok then Written(old(disk[..]), ChunkPosition(p, offset), buffer[..download_bytes])
                          else old(disk[..])
    {
      if offset == 0 && !initWorks {
        return false, InitFailed;
      }
      if !writeWorks {
        return false, WriteFailed;
      }
      ChunkLandsBehind(p, offset);
      Copy(buffer[..download_bytes], download_bytes, disk, ChunkPosition(p, offset));
      assert buffer[..download_bytes][..download_bytes] == buffer[..download_bytes];
      return true, Okay;
    }

    // The answer to a chunk that belongs at `offset` of the partition.
    ghost function Verdict(ptn: Option<nat>, offset: nat, initWorks: bool, writeWorks: bool): Status
      requires ptn.Some? ==> ptn.value < |partitions|
      reads this
    {
      if download_bytes == 0 then NoImage
      else if ptn.None? then NoPartition
      else if partitions[ptn.value].writeEnv then NotSupported
      else if offset + download_bytes > partitions[ptn.value].length then ImageTooLarge
      else if offset == 0 && !initWorks then InitFailed
      else if writeWorks then Okay
      else WriteFailed
    }

    // "multiflash:" for the partition found under the given name; `last`
    // says that this is the image's last chunk.
    method Multiflash(ptn: Option<nat>, last: bool, initWorks: bool, writeWorks: bool) returns (response: Status)
      requires Valid() && download_size == 0 && (ptn.Some? ==> ptn.value < |partitions|)
      modifies `multiflash_offset, `multiflash_ptn, `sent, disk
      ensures Valid() && sent == old(sent) + [response]
      ensures var offset := if ptn == old(multiflash_ptn) then old(multiflash_offset) else 0;
              if response != Okay then disk[..] == old(disk[..])
              else
                && ptn.Some? && download_bytes > 0 && offset + download_bytes <= partitions[ptn.value].length
                && disk[..] ==
                   Written(old(disk[..]), ChunkPosition(partitions[ptn.value], offset), buffer[..download_bytes])
                && if last then multiflash_ptn == None && multiflash_offset == 0
                   else multiflash_ptn == ptn && multiflash_offset == offset + download_bytes
      ensures response
              == Verdict(ptn, if ptn == old(multiflash_ptn) then old(multiflash_offset) else 0, initWorks, writeWorks)
      // A failed chunk can be sent again.
      ensures response != Okay && download_bytes > 0 ==>
                multiflash_ptn == ptn
                && multiflash_offset == if ptn == old(multiflash_ptn) then old(multiflash_offset) else 0
    {
      if download_bytes == 0 {
        response := NoImage;
      } else {
        if ptn != multiflash_ptn {
          multiflash_ptn, multiflash_offset := ptn, 0;
        }
        if ptn == None {
          response := NoPartition;
        } else {
          var p := partitions[ptn.value];
          if p.writeEnv {
            response := NotSupported;
          } else if (download_bytes + multiflash_offset) % 0x1_0000_0000 > p.length {
            response := ImageTooLarge;
          } else {
            var ok;
            ok, response := WriteToPtnEmmc(p, multiflash_offset, initWorks, writeWorks);
            if ok {
              if last {
                multiflash_offset, multiflash_ptn := 0, None;
              } else {
                multiflash_offset := multiflash_offset + download_bytes;
              }
            }
          }
        }
      }
      sent := sent + [response];
    }

    // Where the next chunk for a partition goes: behind the chunks before it,
    // also if they belong to an image that was never finished.
    ghost function ImageOffset(ptn: nat): nat
      reads this
    {
      if multiflash_ptn == Some(ptn) then multiflash_offset else 0
    }

    // Chunks that can follow the ones already flashed.
    ghost predicate ImageFits(ptn: nat, chunks: seq<seq<Byte>>, packets: seq<seq<seq<Byte>>>, base: nat)
      reads this
    {
      && Valid() && ptn < |partitions| && !partitions[ptn].writeEnv
      && |packets| == |chunks| && (forall i | 0 <= i < |chunks| :: Concat(packets[i]) == chunks[i])
      && (forall i | 0 <= i < |chunks| :: 0 < |chunks[i]| <= buffer.Length)
      && WholeSectors(chunks) && base % 512 == 0 && base + |Concat(chunks)| <= partitions[ptn].length
    }

    // The first n chunks are on the disk, which was `was` before, from byte
    // `at` on, and the next one goes behind them.
    ghost predicate ImageStands(ptn: nat, chunks: seq<seq<Byte>>, n: nat, was: seq<Byte>, base: nat, at: nat)
      reads this, disk
    {
      && n <= |chunks| && |Concat(chunks[..n])| <= |Concat(chunks)| && at + |Concat(chunks)| <= |was|
      && disk[..] == Written(was, at, Concat(chunks[..n]))
      && ImageOffset(ptn) == if 0 < n == |chunks| then 0 else base + |Concat(chunks[..n])|
    }

    lemma NothingYet(ptn: nat, chunks: seq<seq<Byte>>, packets: seq<seq<seq<Byte>>>, base: nat, at: nat)
      requires ImageFits(ptn, chunks, packets, base) && base == ImageOffset(ptn)
               && at == partitions[ptn].start * 512 + base
      ensures ImageStands(ptn, chunks, 0, disk[..], base, at)
    {
      assert partitions[ptn] in partitions;
      assert chunks[..0] == [] && Written(disk[..], at, []) == disk[..];
    }

    // A whole image, or the rest of one: each chunk is downloaded in packets
    // and flashed, again and again until the card takes it, in so many attempts
    // altogether. As many chunks are flashed as the card's answers allow; the
    // disk holds these and nothing of the others.
    method FlashImage(ptn: nat, chunks: seq<seq<Byte>>, packets: seq<seq<seq<Byte>>>, answers: nat -> Answer,
                      attempts: nat)
      returns (n: nat)
      requires download_size == 0 && ImageFits(ptn, chunks, packets, ImageOffset(ptn))
      modifies this, buffer, disk
      ensures Valid() && download_size == 0
      ensures n == Flashed(answers, attempts, |chunks|, old(ImageOffset(ptn)) == 0)
      ensures var base := old(ImageOffset(ptn));
              ImageStands(ptn, chunks, n, old(disk[..]), base, partitions[ptn].start * 512 + base)
    {
      ghost var was, base := disk[..], ImageOffset(ptn);
      ghost var at := partitions[ptn].start * 512 + base;
      NothingYet(ptn, chunks, packets, base, at);
      n := FlashAll(ptn, chunks, packets, answers, attempts, was, base, at);
    }

    method FlashAll(ptn: nat, chunks: seq<seq<Byte>>, packets: seq<seq<seq<Byte>>>, answers: nat -> Answer,
                    attempts: nat, ghost was: seq<Byte>, ghost base: nat, ghost at: nat)
      returns (n: nat)
      requires download_size == 0 && ImageFits(ptn, chunks, packets, base)
      requires ImageStands(ptn, chunks, 0, was, base, at) && at == partitions[ptn].start * 512 + base
      modifies this, buffer, disk
      ensures Valid() && download_size == 0 && ImageStands(ptn, chunks, n, was, base, at)
      ensures n == Flashed(answers, attempts, |chunks|, base == 0)
    {
      n := 0;
      var k := 0;
      while k < attempts
        invariant k <= attempts && download_size == 0 && ImageFits(ptn, chunks, packets, base)
        invariant ImageStands(ptn, chunks, n, was, base, at)
        invariant n == Flashed(answers, k, |chunks|, base == 0)
      {
        n := TryNext(ptn, chunks, packets, n, answers(k), was, base, at);
        k := k + 1;
      }
    }

    // One attempt for chunk n, if there is one left.
    method TryNext(ptn: nat, chunks: seq<seq<Byte>>, packets: seq<seq<seq<Byte>>>, n: nat, answer: Answer,
                   ghost was: seq<Byte>, ghost base: nat, ghost at: nat)
      returns (n': nat)
      requires download_size == 0 && ImageFits(ptn, chunks, packets, base)
      requires ImageStands(ptn, chunks, n, was, base, at) && at == partitions[ptn].start * 512 + base
      modifies this, buffer, disk
      ensures download_size == 0 && ImageFits(ptn, chunks, packets, base) && ImageStands(ptn, chunks, n', was, base, at)
      ensures n' == if n < |chunks| && Takes(answer, if base == 0 && n == 0 then 0 else 1) then n + 1 else n
    {
      n' := n;
      if n < |chunks| {
        NoEmptyFront(chunks, n);
        ghost var front := Concat(chunks[..n]);
        ChunksAreContiguous(partitions[ptn], base, chunks, n);
        ghost var next := ChunkPosition(partitions[ptn], base + |front|);
        WrittenTwice(was, at, next, front, chunks[n]);
        var ok := FlashChunk(ptn, base + |front|, chunks[n], packets[n], n + 1 == |chunks|, answer);
        if ok {
          n' := n + 1;
          assert Concat(chunks[..n']) == front + chunks[n];
          assert disk[..] == Written(was, at, front + chunks[n]);
        }
      }
    }

    method FlashChunk(ptn: nat, ghost offset: nat, chunk: seq<Byte>, packets: seq<seq<Byte>>, last: bool,
                      answer: Answer)
      returns (ok: bool)
      requires Valid() && download_size == 0 && ptn < |partitions| && !partitions[ptn].writeEnv
               && Concat(packets) == chunk
      requires 0 < |chunk| <= buffer.Length && offset + |chunk| <= partitions[ptn].length
      requires offset == ImageOffset(ptn)
      modifies this, buffer, disk
      ensures Valid() && download_size == 0 && ok == Takes(answer, offset)
      ensures ImageOffset(ptn) == if !ok then offset else if last then 0 else offset + |chunk|
      ensures ChunkPosition(partitions[ptn], offset) + |chunk| <= disk.Length
      ensures disk[..] ==
              if ok then Written(old(disk[..]), ChunkPosition(partitions[ptn], offset), chunk) else old(disk[..])
    {
      assert partitions[ptn] in partitions;
      ChunkLandsBehind(partitions[ptn], offset);
      Download(|chunk|);
      var used := RxDownload(packets);
      assert buffer[..download_bytes] == chunk;
      var response := Multiflash(Some(ptn), last, answer.init, answer.write);
      ok := response == Okay;
    }
  }

  // ------------------------------------------------------------------------
  // Chunks of an image, written one after the other.

  // Where the driver puts a chunk that starts at `offset` of the image.
  function ChunkPosition(p: Partition, offset: nat): nat {
    (p.start + offset / 512) * 512
  }

  // What the card answers when it is initialised, and when it is written.
  datatype Answer = Answer(init: bool, write: bool)

  // It is initialised for the first chunk of an image only.
  predicate Takes(a: Answer, offset: nat) {
    a.write && (offset == 0 ==> a.init)
  }

  // How many of m chunks are flashed after so many attempts; first says that
  // they are the first of their image.
  function Flashed(answers: nat -> Answer, attempts: nat, m: nat, first: bool): (n: nat)
    ensures n <= m
  {
    if attempts == 0 then 0
    else
      var n := Flashed(answers, attempts - 1, m, first);
      if n < m && Takes(answers(attempts - 1), if first && n == 0 then 0 else 1) then n + 1 else n
  }

  // A card that takes every chunk takes the whole image.
  lemma {:induction false} AllFlashed(answers: nat -> Answer, attempts: nat, m: nat, first: bool)
    requires forall k | 0 <= k < attempts :: answers(k) == Answer(true, true)
    ensures Flashed(answers, attempts, m, first) == if attempts < m then attempts else m
  {
    if attempts > 0 {
      AllFlashed(answers, attempts - 1, m, first);
    }
  }

  // A card that never fails to write takes an image from attempt k0 on, the
  // first one at which it can be initialised; one that goes behind chunks
  // already flashed is taken from the start.
  lemma {:induction false} FlashedFromInit(answers: nat -> Answer, attempts: nat, m: nat, k0: nat)
    requires forall k | 0 <= k < attempts :: answers(k).write
    requires (forall k | 0 <= k < k0 :: !answers(k).init) && answers(k0).init
    ensures Flashed(answers, attempts, m, true) == if attempts <= k0 then 0 else Min(attempts - k0, m)
    ensures Flashed(answers, attempts, m, false) == Min(attempts, m)
  {
    if attempts > 0 {
      FlashedFromInit(answers, attempts - 1, m, k0);
    }
  }

  // Only the empty front of non-empty chunks is empty.
  lemma NoEmptyFront(chunks: seq<seq<Byte>>, n: nat)
    requires n <= |chunks| && forall i | 0 <= i < |chunks| :: 0 < |chunks[i]|
    ensures |Concat(chunks[..n])| == 0 <==> n == 0
  {
    if n > 0 {
      assert Concat(chunks[..n]) == Concat(chunks[..n][..n - 1]) + chunks[n - 1];
    }
  }

  // All chunks but the last are whole sectors.
  predicate WholeSectors(chunks: seq<seq<Byte>>) {
    forall i | 0 <= i < |chunks| - 1 :: |chunks[i]| % 512 == 0
  }

  lemma {:induction false} ConcatOfWholeSectors(chunks: seq<seq<Byte>>)
    requires forall i | 0 <= i < |chunks| :: |chunks[i]| % 512 == 0
    ensures |Concat(chunks)| % 512 == 0
  {
    if chunks != [] {
      var front, last := chunks[..|chunks| - 1], chunks[|chunks| - 1];
      ConcatOfWholeSectors(front);
      SumOfWholeSectors(|Concat(front)|, |last|);
    }
  }

  lemma SumOfWholeSectors(m: nat, n: nat)
    requires m % 512 == 0 && n % 512 == 0
    ensures (m + n) % 512 == 0
  {
  }

  lemma WrittenTwice(disk: seq<Byte>, at: nat, next: nat, a: seq<Byte>, b: seq<Byte>)
    requires next == at + |a| && next + |b| <= |disk|
    ensures Written(Written(disk, at, a), next, b) == Written(disk, at, a + b)
  {
  }

  // Such chunks land one behind the other: chunk i of an image that starts at
  // `offset` of the partition goes right behind the chunks before it.
  lemma {:induction false} ChunksAreContiguous(p: Partition, offset: nat, chunks: seq<seq<Byte>>, i: nat)
    requires offset % 512 == 0 && WholeSectors(chunks) && i < |chunks|
    ensures var front := Concat(chunks[..i]);
            && ChunkPosition(p, offset + |front|) == p.start * 512 + offset + |front|
            && Concat(chunks[..i + 1]) == front + chunks[i] && |front + chunks[i]| <= |Concat(chunks)|
  {
    ConcatPrefix(chunks, i + 1);
    assert chunks[..i + 1][..i] == chunks[..i];
    ConcatOfWholeSectors(chunks[..i]);
    SumOfWholeSectors(offset, |Concat(chunks[..i])|);
    ChunkLandsBehind(p, offset + |Concat(chunks[..i])|);
  }

  // Chunk i lands behind the chunks before it.
  ghost predicate InPlace(p: Partition, offset: nat, chunks: seq<seq<Byte>>, i: nat)
    requires i <= |chunks|
  {
    ChunkPosition(p, offset + |Concat(chunks[..i])|) == p.start * 512 + offset + |Concat(chunks[..i])|
  }

  lemma OneChunkMore(chunks: seq<seq<Byte>>, i: nat)
    requires i < |chunks|
    ensures |Concat(chunks[..i + 1])| == |Concat(chunks[..i])| + |chunks[i]|
  {
    assert chunks[..i + 1][..i] == chunks[..i];
  }

  lemma DifferenceOfWholeSectors(m: nat, n: nat)
    requires m % 512 == 0 && (m + n) % 512 == 0
    ensures n % 512 == 0
  {
  }

  // Of an image that starts at a sector, all chunks land in their places
  // exactly if all but the last are whole sectors.
  lemma AllInPlaceExactly(p: Partition, offset: nat, chunks: seq<seq<Byte>>)
    requires offset % 512 == 0
    ensures (forall i | 0 <= i < |chunks| :: InPlace(p, offset, chunks, i)) <==> WholeSectors(chunks)
  {
    if WholeSectors(chunks) {
      forall i | 0 <= i < |chunks| ensures InPlace(p, offset, chunks, i) {
        ChunksAreContiguous(p, offset, chunks, i);
      }
    }
    if forall i | 0 <= i < |chunks| :: InPlace(p, offset, chunks, i) {
      forall i | 0 <= i < |chunks| - 1 ensures |chunks[i]| % 512 == 0 {
        assert InPlace(p, offset, chunks, i) && InPlace(p, offset, chunks, i + 1);
        ChunkLandsBehind(p, offset + |Concat(chunks[..i])|);
        ChunkLandsBehind(p, offset + |Concat(chunks[..i + 1])|);
        OneChunkMore(chunks, i);
        DifferenceOfWholeSectors(offset + |Concat(chunks[..i])|, |chunks[i]|);
      }
    }
  }

  // Otherwise the end of a chunk is lost under the next one, at least if that
  // starts differently than the broken sector.
  lemma NextChunkOverwrites(p: Partition, disk: seq<Byte>, a: seq<Byte>, b: seq<Byte>)
    requires |a| % 512 != 0 && b != [] && b[0] != a[|a| - |a| % 512]
    requires ChunkPosition(p, 0) + |a| + |b| <= |disk|
    ensures var at, next := ChunkPosition(p, 0), ChunkPosition(p, |a|);
            && next == at + |a| - |a| % 512
            && Written(Written(disk, at, a), next, b)[at..at + |a|] != a
  {
    var at, next, k := ChunkPosition(p, 0), ChunkPosition(p, |a|), |a| - |a| % 512;
    var after := Written(Written(disk, at, a), next, b);
    assert after[next] == b[0];
    assert after[at..at + |a|][k] == after[next];
  }

  // A chunk lands right behind what came before exactly if that was a whole
  // number of sectors; otherwise it overwrites the end of it.
  lemma ChunkLandsBehind(p: Partition, offset: nat)
    ensures ChunkPosition(p, offset) == p.start * 512 + offset <==> offset % 512 == 0
    ensures ChunkPosition(p, offset) <= p.start * 512 + offset
  {
  }

  lemma {:induction false} ConcatPrefix(packets: seq<seq<Byte>>, n: nat)
    requires n <= |packets|
    ensures |Concat(packets[..n])| <= |Concat(packets)|
            && Concat(packets)[..|Concat(packets[..n])|] == Concat(packets[..n])
    decreases |packets|
  {
    if n == |packets| {
      assert packets[..n] == packets;
    } else {
      ConcatPrefix(packets[..|packets| - 1], n);
      assert packets[..|packets| - 1][..n] == packets[..n];
    }
  }
}
