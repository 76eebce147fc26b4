/** One hardware descriptor: its packed words, and the functions of the driver that set them. */
module Descriptor {
  import opened Bits

  datatype Direction = ToDevice | FromDevice

  /** `struct xdma_desc`: eight 32-bit words. */
  datatype Desc = Desc(control: nat, bytes: nat,
                       srcLo: nat, srcHi: nat, dstLo: nat, dstHi: nat,
                       nextLo: nat, nextHi: nat)

  const DESC_SIZE: nat := 32
  const DESC_MAGIC: nat := 0xAD4B_0000
  const DESC_STOPPED: nat := 0x01
  const DESC_COMPLETED: nat := 0x02
  const DESC_EOP: nat := 0x10
  const LS_BYTE_MASK: nat := 0xff
  const XDMA_PAGE_SIZE: nat := 0x1000
  const MAX_ADJ_BLOCK_SIZE: nat := 0x40

  // ---- 64-bit addresses in two words ----

  /** The PCI_DMA_L macro. */
  function DmaLo(a: nat): nat { And(a, 0xffff_ffff) }

  /** The PCI_DMA_H macro, stored into a 32-bit word. */
  function DmaHi(a: nat): nat { ((a / 0x1_0000) / 0x1_0000) % U32 }

  /** How the hardware reads an address back. */
  function Join(lo: nat, hi: nat): nat { hi * U32 + lo }

  lemma JoinSplit(a: nat)
    requires a < U64
    ensures DmaLo(a) == a % U32 < U32 && DmaHi(a) < U32
    ensures Join(DmaLo(a), DmaHi(a)) == a
  {
    AndMaskAt(a, 32, U32);
    assert (a / 0x1_0000) / 0x1_0000 == a / U32;
  }

  // ---- the control word ----

  /** `xdma_desc_control_set`: replaces the low byte; a field wider than a byte is refused. */
  function SetControl(d: Desc, field: nat): (r: (bool, Desc)) {
    if And(field, 0xffff_ff00) != 0 then (false, d)
    else (true, d.(control := Or(And(d.control, 0xffff_ff00), field)))
  }

  /** `xdma_desc_adjacent`: keeps the bits under 0xf0ff, ORs in the magic and the count. */
  function SetAdjacent(d: Desc, adj: nat): Desc {
    d.(control := Or(And(d.control, 0x0000_f0ff), Or(0xAD4B_0000, (adj * 0x100) % U32)))
  }

  function MagicOf(control: nat): nat { control / 0x1_0000 }
  function AdjacentOf(control: nat): nat { And(control / 0x100, 0x3f) }
  function ControlOf(control: nat): nat { And(control, LS_BYTE_MASK) }

  /** The control byte of the last descriptor of a chain. */
  function LastControl(): nat { Or(Or(DESC_STOPPED, DESC_EOP), DESC_COMPLETED) }

  /** A word written out as magic half, two nibbles and a byte. */
  function Word(m: nat, b: nat, d: nat, e: nat): nat { ((m * 0x10 + b) * 0x10 + d) * 0x100 + e }

  lemma WordParts(c: nat) returns (m: nat, b: nat, d: nat, e: nat)
    ensures c == Word(m, b, d, e) && b < 0x10 && d < 0x10 && e < 0x100
    ensures b == (c / 0x1000) % 0x10
  {
    var x := c / 0x100;
    var y := x / 0x10;
    e, d, b, m := c % 0x100, x % 0x10, y % 0x10, y / 0x10;
    assert c / 0x1000 == y;
  }

  /** What survives the mask 0xf0ff: the control byte, and the nibble above the count's low half. */
  lemma KeptBits(m: nat, b: nat, d: nat, e: nat)
    requires b < 0x10 && d < 0x10 && e < 0x100
    ensures And(Word(m, b, d, e), 0xf0ff) == Word(0, b, 0, e)
  {
    hide And, Or;
    var h := (m * 0x10 + b) * 0x10 + d;
    AndSplitAt(h, e, 0xf0, 0xff, 8, 0x100);
    AndMaskAt(e, 8, 0x100);
    AndSplitAt(m * 0x10 + b, d, 0xf, 0, 4, 0x10);
    WithZero(d);
    AndMaskAt(m * 0x10 + b, 4, 0x10);
    assert And(h, 0xf0) == b * 0x10;
  }

  /** The word that `xdma_desc_adjacent` writes over any previous word. */
  lemma AdjacentWord(w: Desc, adj: nat, m: nat, b: nat, d: nat, e: nat)
    requires w.control == Word(m, b, d, e) && b < 0x10 && d < 0x10 && e < 0x100 && adj < 0x40
    ensures SetAdjacent(w, adj).control == DESC_MAGIC + Or(b * 0x10, adj) * 0x100 + e
    ensures Or(b * 0x10, adj) < 0x100
  {
    hide And, Or;
    KeptBits(m, b, d, e);
    OrSplitAt(0xAD4B, 0, 0, adj * 0x100, 16, 0x1_0000);
    OrSplitAt(0, (b * 0x10) * 0x100 + e, 0xAD4B, adj * 0x100, 16, 0x1_0000);
    OrSplitAt(0, b * 0x10, 0, adj, 8, 0x100);
    OrSplitAt(b * 0x10, e, adj, 0, 8, 0x100);
    WithZero(0xAD4B);
    WithZero(adj * 0x100);
    WithZero(e);
    WithZero(0);
  }

  lemma TwoBits(h: nat, a: nat)
    requires h < 4 && a < 4
    ensures Or(h, a) == a <==> And(h, a) == h
  {
    assert Or(1, 1) == 1 && Or(1, 2) == 3 && Or(1, 3) == 3 && Or(2, 1) == 3 && Or(2, 2) == 2 && Or(2, 3) == 3;
    assert Or(3, 1) == 3 && Or(3, 2) == 3 && Or(3, 3) == 3;
    assert And(1, 1) == 1 && And(1, 2) == 0 && And(1, 3) == 1 && And(2, 1) == 0 && And(2, 2) == 2 && And(2, 3) == 2;
    assert And(3, 1) == 1 && And(3, 2) == 2 && And(3, 3) == 3;
    assert h == 0 || h == 1 || h == 2 || h == 3;
    assert a == 0 || a == 1 || a == 2 || a == 3;
  }

  /** The count read back, in terms of the stale nibble. */
  lemma ReadBack(b: nat, adj: nat, e: nat)
    requires b < 0x10 && adj < 0x40 && e < 0x100 && Or(b * 0x10, adj) < 0x100
    ensures AdjacentOf(DESC_MAGIC + Or(b * 0x10, adj) * 0x100 + e) == Or(b % 4, adj / 0x10) * 0x10 + adj % 0x10
  {
    hide And, Or;
    var f, x, y, z := Or(b * 0x10, adj), Or(b / 4, 0), Or(b % 4, adj / 0x10), adj % 0x10;
    OrSplitAt(b, 0, adj / 0x10, z, 4, 0x10);
    WithZero(z);
    OrSplitAt(b / 4, b % 4, 0, adj / 0x10, 2, 4);
    assert f == (x * 4 + y) * 0x10 + z;
    LowSix(x, y, z, e);
    AndMaskAt((DESC_MAGIC + f * 0x100 + e) / 0x100, 6, 0x40);
  }

  lemma LowSix(x: nat, y: nat, z: nat, e: nat)
    requires y < 4 && z < 0x10 && e < 0x100
    ensures ((DESC_MAGIC + ((x * 4 + y) * 0x10 + z) * 0x100 + e) / 0x100) % 0x40 == y * 0x10 + z
  {
    var f := (x * 4 + y) * 0x10 + z;
    assert (DESC_MAGIC + f * 0x100 + e) / 0x100 == 0xAD4B00 + f;
    assert 0xAD4B00 + f == (0x2B52C + x) * 0x40 + (y * 0x10 + z);
  }

  /** The count field decodes to the count just written exactly when the two bits the mask 0xf0ff
      forgets to clear were already among the bits of the new count. */
  lemma AdjacentDecodes(w: Desc, adj: nat)
    requires adj < 0x40
    ensures var stale := (w.control / 0x1000) % 4;
            AdjacentOf(SetAdjacent(w, adj).control) == adj <==> And(stale, adj / 0x10) == stale
  {
    hide And, Or;
    var m, b, d, e := WordParts(w.control);
    AdjacentWord(w, adj, m, b, d, e);
    ReadBack(b, adj, e);
    TwoBits(b % 4, adj / 0x10);
    assert (w.control / 0x1000) % 4 == b % 4;
  }

  /** A re-used word with a stale count keeps it: writing 0 over a count of 16 reads back 16. */
  lemma StaleCountSurvives(d: Desc)
    requires d.control == DESC_MAGIC + 0x10 * 0x100
    ensures MagicOf(d.control) == 0xAD4B && AdjacentOf(d.control) == 0x10
    ensures AdjacentOf(SetAdjacent(d, 0).control) != 0
  {
    AdjacentDecodes(d, 0);
    DecodeWord(0, 0x10);
    assert And(1, 0) == 0;
  }

  /** On a freshly initialised word the count is simply added. */
  lemma FreshWord(d: Desc, ctl: nat, adj: nat)
    requires d.control == DESC_MAGIC + ctl && ctl < 0x100 && adj < 0x40
    ensures SetAdjacent(d, adj).control == DESC_MAGIC + adj * 0x100 + ctl
  {
    AdjacentWord(d, adj, 0xAD4B, 0, 0, ctl);
  }

  /** The three fields read back from a word the driver wrote. */
  lemma DecodeWord(ctl: nat, adj: nat)
    requires ctl < 0x100 && adj < 0x40
    ensures var c := DESC_MAGIC + adj * 0x100 + ctl;
            MagicOf(c) == 0xAD4B && AdjacentOf(c) == adj && ControlOf(c) == ctl
  {
    var c := DESC_MAGIC + adj * 0x100 + ctl;
    assert c / 0x100 == 0xAD4B00 + adj;
    AndMaskAt(c / 0x100, 6, 0x40);
    AndMaskAt(c, 8, 0x100);
  }

  lemma LastControlValue()
    ensures LastControl() == 0x13
  {
    assert Or(1, 0x10) == 0x11 && Or(0x11, 2) == 0x13;
  }

  /** Setting the control byte of a freshly initialised word. */
  lemma FreshControl(d: Desc)
    requires d.control == DESC_MAGIC
    ensures SetControl(d, LastControl()) == (true, d.(control := DESC_MAGIC + LastControl()))
  {
    hide And, Or;
    LastControlValue();
    AndSplitAt(0, 0x13, 0xff_ffff, 0, 8, 0x100);
    AndSplitAt(0xAD4B00, 0, 0xff_ffff, 0, 8, 0x100);
    AndMaskAt(0xAD4B00, 24, 0x100_0000);
    OrSplitAt(0xAD4B00, 0, 0, 0x13, 8, 0x100);
    WithZero(0x13);
    WithZero(0xff_ffff);
    WithZero(0xAD4B00);
    WithZero(0);
  }

  /** Setting the control byte of any word: a field wider than a byte is refused and changes nothing;
      otherwise the low byte is replaced and the rest kept. */
  lemma ControlSet(d: Desc, field: nat)
    requires d.control < U32 && field < U32
    ensures var (ok, r) := SetControl(d, field);
            && (ok <==> field < 0x100)
            && r == if ok then d.(control := d.control / 0x100 * 0x100 + field) else d
  {
    hide And, Or;
    var h, l, c, b := field / 0x100, field % 0x100, d.control / 0x100, d.control % 0x100;
    AndSplitAt(h, l, 0xff_ffff, 0, 8, 0x100);
    AndSplitAt(c, b, 0xff_ffff, 0, 8, 0x100);
    AndMaskAt(h, 24, 0x100_0000);
    AndMaskAt(c, 24, 0x100_0000);
    WithZero(l);
    WithZero(b);
    OrSplitAt(c, 0, 0, l, 8, 0x100);
    WithZero(c);
    WithZero(l);
  }

  // ---- endpoints and link ----

  /** `xdma_desc_set`: length and both addresses, by direction; the link is not touched. */
  function SetTransfer(d: Desc, rc: nat, ep: nat, len: nat, dir: Direction): Desc {
    var (src, dst) := if dir.ToDevice? then (rc, ep) else (ep, rc);
    d.(bytes := len % U32,
       srcLo := DmaLo(src), srcHi := DmaHi(src),
       dstLo := DmaLo(dst), dstHi := DmaHi(dst))
  }

  function Min(a: int, b: int): int { if a <= b then a else b }

  /** `xdma_get_next_adj`. */
  function NextAdj(remaining: nat, nextLo: nat): nat {
    if remaining <= 1 then 0
    else
      var nextIndex := (And(nextLo, XDMA_PAGE_SIZE - 1) / 32) % MAX_ADJ_BLOCK_SIZE;
      Min(MAX_ADJ_BLOCK_SIZE - nextIndex - 1, remaining - 1)
  }

  /** An aligned descriptor address as block number and index in its 2 KB (64-descriptor) block. */
  lemma BlockIndex(addr: nat) returns (k: nat, q: nat)
    requires addr % DESC_SIZE == 0
    ensures addr == k * 0x800 + q * 0x20 && q < 0x40
    ensures q == ((addr % 0x1000) / 0x20) % 0x40
  {
    var n := addr / 0x20;
    k, q := n / 0x40, n % 0x40;
    var i := (k % 2) * 0x40 + q;
    DivModUnique(addr, 0x1000, k / 2, i * 0x20);
    DivModUnique(i, 0x40, k % 2, q);
  }

  /** The count, in terms of the address of the block it is for: the descriptors left, cut at the
      next 2 KB boundary. */
  lemma NextAdjMeaning(remaining: nat, addr: nat)
    requires addr < U64 && addr % DESC_SIZE == 0 && remaining >= 1
    ensures var adj := NextAdj(remaining, DmaLo(addr));
            && 0 <= adj < 0x40 && adj < remaining
            && addr / 0x800 == (addr + DESC_SIZE * adj + DESC_SIZE - 1) / 0x800
            && (adj + 1 < remaining ==> (addr + DESC_SIZE * (adj + 1)) % 0x800 == 0)
  {
    hide And;
    var k, q := BlockIndex(addr);
    NextAdjValue(remaining, addr);
    var adj := NextAdj(remaining, DmaLo(addr));
    DivModUnique(addr, 0x800, k, q * 0x20);
    DivModUnique(addr + DESC_SIZE * adj + DESC_SIZE - 1, 0x800, k, (q + adj) * 0x20 + 0x1f);
    if adj + 1 < remaining {
      DivModUnique(addr + DESC_SIZE * (adj + 1), 0x800, k + 1, 0);
    }
  }

  lemma NextAdjValue(remaining: nat, addr: nat)
    requires addr < U64 && remaining >= 1
    ensures var q := ((addr % 0x1000) / 0x20) % 0x40;
            NextAdj(remaining, DmaLo(addr)) == Min(0x3f - q, remaining - 1)
  {
    hide And;
    JoinSplit(addr);
    AndMaskAt(DmaLo(addr), 12, 0x1000);
    assert (addr % U32) % 0x1000 == addr % 0x1000;
  }
}
