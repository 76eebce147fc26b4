/** What the DMA transfers of a frame do to memory: the link between the byte moves of the engine and
    the DMA steps of the packet ring. */
module Payload {
  import opened Descriptor
  import opened Request
  import opened Hardware
  import opened PacketRing
  import opened TransferData

  /** The bus addresses of a buffer of n bytes. */
  function BufferBytes(bus: nat -> nat, buf: nat, n: nat): seq<nat> {
    TranslateAll(bus, Range(Entry(buf, n)))
  }

  lemma BufferPrefix(bus: nat -> nat, buf: nat, n: nat, m: nat, ep: nat, dir: Direction)
    requires n <= m
    ensures |BufferBytes(bus, buf, n)| == n
    ensures forall i :: 0 <= i < n ==> BufferBytes(bus, buf, n)[i] == Translate(bus, buf + i)
    ensures |CopyMoves(BufferBytes(bus, buf, m), ep, dir, true)| == m
    ensures CopyMoves(BufferBytes(bus, buf, m), ep, dir, true)[..n]
         == CopyMoves(BufferBytes(bus, buf, n), ep, dir, true)
  {
    hide Translate;
  }

  /** A send whose transfer moved the first n bytes of the buffer holding frame f leaves device memory
      as the producer's DMA step of the packet ring says: those n bytes at the frame's place. */
  lemma SendIsDmaStep(bus: nat -> nat, buf: nat, f: Frame, off: nat, n: nat, host: Memory, dev: Memory, a: nat)
    requires n <= |f| && forall i :: 0 <= i < |f| ==> Read(host, Translate(bus, buf + i)) == f[i]
    ensures |CopyMoves(BufferBytes(bus, buf, |f|), off, ToDevice, true)| == |f|
    ensures var moved := CopyMoves(BufferBytes(bus, buf, |f|), off, ToDevice, true)[..n];
            Read(Effect(moved, host, dev), a) == Read(Written(dev, off, f, 0, n), a)
  {
    hide CopyMoves, BufferBytes, Effect, Written, Translate;
    BufferPrefix(bus, buf, n, |f|, off, ToDevice);
    ToDeviceEffect(BufferBytes(bus, buf, n), off, host, dev);
    WrittenMeans(dev, off, f, 0, n);
    if off <= a < off + n {
      assert Translate(bus, buf + (a - off)) == BufferBytes(bus, buf, n)[a - off];
    }
  }

  /** The pages of a buffer are mapped to different bus pages. */
  ghost predicate OwnPages(bus: nat -> nat, buf: nat, len: nat) {
    forall p: nat, q: nat :: buf / PAGE_SIZE <= p < q < (buf + len + PAGE_SIZE - 1) / PAGE_SIZE ==> bus(p) != bus(q)
  }

  /** A receive whose transfer moved the first n bytes leaves in the buffer what the consumer's DMA
      step reads from device memory, if the buffer's pages are mapped to different bus pages. */
  lemma ReceiveIsDmaStep(bus: nat -> nat, buf: nat, len: nat, off: nat, n: nat, dev: Memory, host: Memory, i: nat)
    requires i < n <= len && OwnPages(bus, buf, len)
    ensures |CopyMoves(BufferBytes(bus, buf, len), off, FromDevice, true)| == len
    ensures var moved := CopyMoves(BufferBytes(bus, buf, len), off, FromDevice, true)[..n];
            Read(Effect(moved, dev, host), Translate(bus, buf + i)) == Fetched(dev, off, n)[i]
  {
    hide CopyMoves, BufferBytes, Effect, Translate, OwnPages;
    BufferPrefix(bus, buf, n, len, off, FromDevice);
    var addrs := BufferBytes(bus, buf, n);
    forall j, k | 0 <= j < k < |addrs| ensures addrs[j] != addrs[k] {
      DifferentBytes(bus, buf, len, j, k);
    }
    FromDeviceEffect(addrs, off, dev, host);
    var after := Effect(CopyMoves(addrs, off, FromDevice, true), dev, host);
    assert addrs[i] in after && after[addrs[i]] == Read(dev, off + i);
    assert Fetched(dev, off, n)[i] == Read(dev, off + i);
    assert addrs[i] == Translate(bus, buf + i);
  }

  lemma DifferentBytes(bus: nat -> nat, buf: nat, len: nat, j: nat, k: nat)
    requires j < k < len && OwnPages(bus, buf, len)
    ensures Translate(bus, buf + j) != Translate(bus, buf + k)
  {
    var a, b := buf + j, buf + k;
    if a / PAGE_SIZE == b / PAGE_SIZE {
      assert a % PAGE_SIZE != b % PAGE_SIZE;
    } else {
      assert bus(a / PAGE_SIZE) != bus(b / PAGE_SIZE);
    }
  }
}
