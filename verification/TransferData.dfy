/** `xdma_transfer_data`: one DMA transfer between a kernel buffer and device memory.  The buffer is
    cut at page boundaries into a scatter list, the list is mapped and submitted. */
module TransferData {
  import opened Bits
  import opened Descriptor
  import opened Request
  import opened Hardware
  import opened Chain
  import opened Engine
  import opened Wait
  import opened Submit
  import E = EngineModel

  const PAGE_SIZE: nat := 0x1000

  /** The page-count expression, in 64-bit unsigned arithmetic. */
  function PagesNr(buf: nat, length: nat): nat {
    (((buf + length + PAGE_SIZE - 1) % U64 - And(buf, U64 - PAGE_SIZE)) % U64) / PAGE_SIZE
  }

  /** PAGE_MASK clears the offset in the page. */
  lemma PageMask(a: nat)
    requires a < U64
    ensures And(a, U64 - PAGE_SIZE) == a - a % PAGE_SIZE
  {
    hide And;
    Pow2At(12);
    Pow2At(32);
    assert Pow2(42) == 0x400_0000_0000;
    assert Pow2(52) == 0x10_0000_0000_0000;
    AndSplit(a / PAGE_SIZE, a % PAGE_SIZE, 0x10_0000_0000_0000 - 1, 0, 12);
    WithZero(a % PAGE_SIZE);
    AndMask(a / PAGE_SIZE, 52);
  }

  /** The expression counts exactly the pages that hold a byte of the buffer; for an empty buffer it is
      zero only at the start of a page. */
  lemma PagesNrMeaning(buf: nat, length: nat)
    requires buf < U64 && buf % PAGE_SIZE + length + PAGE_SIZE <= U64
    ensures length >= 1 ==> PagesNr(buf, length) == (buf + length - 1) / PAGE_SIZE - buf / PAGE_SIZE + 1
    ensures length == 0 ==> PagesNr(buf, length) == if buf % PAGE_SIZE == 0 then 0 else 1
  {
    hide And;
    PageMask(buf);
    var x := buf % PAGE_SIZE + length + PAGE_SIZE - 1;
    assert ((buf + length + PAGE_SIZE - 1) % U64 - And(buf, U64 - PAGE_SIZE)) % U64 == x;
  }

  /** The piece lies inside one page. */
  predicate InOnePage(e: Entry) { e.addr % PAGE_SIZE + e.len <= PAGE_SIZE }

  /** A buffer cut at page boundaries. */
  function CutPages(buf: nat, length: nat): seq<Entry>
    decreases length
  {
    if length == 0 then []
    else
      var n := Min(PAGE_SIZE - buf % PAGE_SIZE, length);
      [Entry(buf, n)] + CutPages(buf + n, length - n)
  }

  /** The scatter list for a buffer: an empty one in the middle of a page still gets an entry. */
  function PagePieces(buf: nat, length: nat): seq<Entry> {
    if length == 0 && buf % PAGE_SIZE != 0 then [Entry(buf, 0)] else CutPages(buf, length)
  }

  /** The page-splitting loop.  For every buffer the pieces are its bytes in order, each inside one
      page, as many as the page count says, and non-empty unless the buffer is. */
  method SplitPages(buf: nat, length: nat) returns (pieces: seq<Entry>)
    requires buf + length <= U64 && buf < U64 && length + 2 * PAGE_SIZE <= U64
    ensures pieces == PagePieces(buf, length) && |pieces| == PagesNr(buf, length)
    ensures Addresses(pieces) == Range(Entry(buf, length))
    ensures forall e :: e in pieces ==> InOnePage(e) && (e.len >= 1 <==> length >= 1)
    ensures forall e :: e in pieces ==> buf <= e.addr < U64 && e.addr + e.len <= buf + length
  {
    hide And, PagesNr, Addresses, Range, CutPages, InOnePage;
    CutNothing(buf + length);
    PagesNrMeaning(buf, length);
    var pagesNr, i := PagesNr(buf, length), 0;
    var at: nat, left: nat := buf, length;
    pieces := [];
    NoBytes(buf);
    while i < pagesNr
      invariant 0 <= i <= pagesNr && |pieces| == i && at + left == buf + length && at >= buf
      invariant left > 0 ==> pagesNr - i == (at + left - 1) / PAGE_SIZE - at / PAGE_SIZE + 1
      invariant left == 0 && length > 0 ==> i == pagesNr
      invariant length > 0 ==> pieces + CutPages(at, left) == CutPages(buf, length)
      invariant length == 0 ==> pieces == (if i == 0 then [] else [Entry(buf, 0)])
      invariant Addresses(pieces) == Range(Entry(buf, at - buf))
      invariant forall e :: e in pieces ==> InOnePage(e) && (e.len >= 1 <==> length >= 1)
      invariant forall e :: e in pieces ==> buf <= e.addr < U64 && e.addr + e.len <= buf + length
    {
      var offset := at % PAGE_SIZE;
      var nbytes := Min(PAGE_SIZE - offset, left);
      BytesAppend(pieces, buf, at - buf, nbytes);
      assert InOnePage(Entry(at, nbytes)) by { FitsPage(at, left); }
      PagesLeft(at, left, nbytes);
      CutMore(pieces, at, left, nbytes);
      pieces := pieces + [Entry(at, nbytes)];
      at := at + nbytes;
      left := left - nbytes;
      i := i + 1;
    }
  }

  lemma CutMore(pieces: seq<Entry>, at: nat, left: nat, n: nat)
    requires left > 0 ==> n == Min(PAGE_SIZE - at % PAGE_SIZE, left)
    ensures left > 0 ==>
              && n <= left
              && pieces + CutPages(at, left) == pieces + [Entry(at, n)] + CutPages(at + n, left - n)
  {
    if left > 0 {
      var rest := CutPages(at + n, left - n);
      assert pieces + ([Entry(at, n)] + rest) == pieces + [Entry(at, n)] + rest;
    }
  }

  lemma CutNothing(at: nat)
    ensures CutPages(at, 0) == []
  {
  }

  lemma FitsPage(at: nat, left: nat)
    ensures InOnePage(Entry(at, Min(PAGE_SIZE - at % PAGE_SIZE, left)))
  {
  }

  lemma NoBytes(buf: nat)
    ensures Addresses([]) == Range(Entry(buf, 0))
  {
  }

  lemma BytesAppend(pieces: seq<Entry>, buf: nat, n: nat, m: nat)
    requires Addresses(pieces) == Range(Entry(buf, n))
    ensures Addresses(pieces + [Entry(buf + n, m)]) == Range(Entry(buf, n + m))
  {
    hide Addresses;
    AddressesAppend(pieces, [Entry(buf + n, m)]);
    OneEntry(Entry(buf + n, m));
    assert Range(Entry(buf, n)) + Range(Entry(buf + n, m)) == Range(Entry(buf, n + m));
  }

  /** One piece uses up one page. */
  lemma PagesLeft(at: nat, left: nat, n: nat)
    requires n == Min(PAGE_SIZE - at % PAGE_SIZE, left)
    ensures left > n ==> n >= 1 && (at + n) / PAGE_SIZE == at / PAGE_SIZE + 1
    ensures left == n >= 1 ==> (at + left - 1) / PAGE_SIZE == at / PAGE_SIZE
  {
  }

  // ---- mapping ----

  /** The bus address of a virtual address, page by page. */
  function Translate(bus: nat -> nat, a: nat): nat { bus(a / PAGE_SIZE) * PAGE_SIZE + a % PAGE_SIZE }

  function Mapped(bus: nat -> nat, es: seq<Entry>): (r: seq<Entry>)
    ensures |r| == |es| && forall i :: 0 <= i < |es| ==> r[i] == Entry(Translate(bus, es[i].addr), es[i].len)
  {
    if es == [] then [] else [Entry(Translate(bus, es[0].addr), es[0].len)] + Mapped(bus, es[1..])
  }

  function TranslateAll(bus: nat -> nat, addrs: seq<nat>): seq<nat> {
    seq(|addrs|, i requires 0 <= i < |addrs| => Translate(bus, addrs[i]))
  }

  /** Because every piece lies in one page, the mapped list reaches each byte of the buffer. */
  lemma {:induction false} MappedBytes(bus: nat -> nat, es: seq<Entry>)
    requires forall e :: e in es ==> InOnePage(e)
    ensures Addresses(Mapped(bus, es)) == TranslateAll(bus, Addresses(es))
  {
    hide Range, Translate;
    if es == [] {
    } else {
      assert es[0] in es;
      MappedPiece(bus, es[0]);
      MappedBytes(bus, es[1..]);
      var a, b := Range(es[0]), Addresses(es[1..]);
      assert Mapped(bus, es)[1..] == Mapped(bus, es[1..]);
      assert TranslateAll(bus, a + b) == TranslateAll(bus, a) + TranslateAll(bus, b);
    }
  }

  lemma MappedPiece(bus: nat -> nat, e: Entry)
    requires InOnePage(e)
    ensures Range(Entry(Translate(bus, e.addr), e.len)) == TranslateAll(bus, Range(e))
  {
    var l, r := Range(Entry(Translate(bus, e.addr), e.len)), TranslateAll(bus, Range(e));
    forall i | 0 <= i < e.len ensures l[i] == r[i] {
      SamePage(bus, e.addr, i);
    }
  }

  lemma SamePage(bus: nat -> nat, a: nat, i: nat)
    requires a % PAGE_SIZE + i < PAGE_SIZE
    ensures Translate(bus, a + i) == Translate(bus, a) + i
  {
    DivModUnique(a + i, PAGE_SIZE, a / PAGE_SIZE, a % PAGE_SIZE + i);
  }

  /** The mapped pieces of a buffer can be submitted. */
  lemma MappedFits(bus: nat -> nat, es: seq<Entry>, buf: nat, length: nat, blen: nat)
    requires Addresses(es) == Range(Entry(buf, length)) && length < U32
    requires forall e :: e in es ==> InOnePage(e) && e.addr < U64
    requires blen + PAGE_SIZE <= U32 && forall p: nat :: p < U64 / PAGE_SIZE ==> bus(p) < U64 / PAGE_SIZE
    ensures var m := Mapped(bus, es);
            Total(m) == length && Fits(m, blen)
  {
    hide Addresses, Total;
    MappedBytes(bus, es);
    TotalIsLength(Mapped(bus, es));
  }

  /** `xdma_transfer_data`.  `bus` is the mapping set up for the list; `mapFails`, `noTable` and `oom` are
      the outcomes of mapping and of the allocations.  Ring, engine, result and the bytes moved are
      those of the submit call for the mapped pages; as many bytes as are returned, of the buffer in
      order, have moved to or from `offset` on in device memory, and all of them if no turn ends the
      call early. */
  method TransferBuffer(eng: XdmaEngine, offline: bool, offset: nat, length: int, buf: nat, isWrite: bool, blen: nat,
                        bus: nat -> nat, mapFails: bool, noTable: bool, oom: bool, turns: nat -> Turn)
    returns (res: int, ghost moved: seq<Move>)
    requires Ready(eng) && 1 <= blen && blen + PAGE_SIZE <= U32
    requires buf < U64 && buf + length <= U64 && offset + PAGE_SIZE < U64
    requires forall p: nat :: p < U64 / PAGE_SIZE ==> bus(p) < U64 / PAGE_SIZE
    modifies eng, eng.desc
    ensures eng.RingValid() && eng.ListValid() && eng.nonIncrAddr == old(eng.nonIncrAddr)
    ensures var invalid := length < 0 || length > PAGE_SIZE || (length == 0 && buf % PAGE_SIZE == 0);
            var dir := if isWrite then ToDevice else FromDevice;
            var refused := invalid || noTable || offline || dir != eng.dir || mapFails || oom;
            && (refused ==>
                  && moved == []
                  && Untouched(eng, old(eng.desc[..]), old(eng.descIdx), old(eng.View()), old(eng.descUsed))
                  && res == (if invalid then -EINVAL else if noTable then -ENOMEM else if offline then -EBUSY
                             else if dir != eng.dir then -EINVAL else if mapFails then -EIO else -ENOMEM))
            && (!refused ==>
                  var c := Setting(eng.descBus, dir, !eng.nonIncrAddr, turns);
                  var sgl := Mapped(bus, PagePieces(buf, length));
                  var r := Call(c, old(eng.desc[..]), old(eng.descIdx), sgl, blen, offset, old(eng.View()));
                  var whole := CopyMoves(TranslateAll(bus, Range(Entry(buf, length))), offset, dir, c.incr);
                  && EndsAs(eng, r, old(eng.descUsed)) && res == ResultOf(r) && r.moves == Some(moved)
                  && |whole| == length && |moved| <= length && moved == whole[..|moved|]
                  && Reports(res, |moved|, length, |SplitAll(sgl, blen)|, old(eng.descIdx), eng.descMax,
                             dir, old(eng.shutdownRequest), turns))
  {
    hide Total, CopyMoves, Addresses, Submitted, SplitAll, Range, TranslateAll, PagesNr, InOnePage, Fits,
         PagePieces, Mapped, E.Inv, Distinct, EndsAs, Call, Reports, AllSucceed, Answers, ResultOf;
    moved := [];
    if length < 0 || length > PAGE_SIZE {       // one unsigned comparison in the source
      return -EINVAL, moved;
    }
    PagesNrMeaning(buf, length);
    if PagesNr(buf, length) == 0 {
      return -EINVAL, moved;
    }
    if noTable {
      return -ENOMEM, moved;
    }
    var dir := if isWrite then ToDevice else FromDevice;
    ghost var c := Setting(eng.descBus, dir, !eng.nonIncrAddr, turns);
    var sgt := new SgTable(0);
    var pieces := SplitPages(buf, length);
    MappedBytes(bus, pieces);
    MappedFits(bus, pieces, buf, length, blen);
    MappedLength(bus, pieces);
    NothingMapped(blen);
    var sgl := if mapFails then [] else Mapped(bus, pieces);
    CallLaw(c, eng.desc[..], eng.descIdx, Mapped(bus, pieces), blen, offset, eng.View());
    res, moved := XferSubmit(eng, offline, dir, offset, sgl, blen, sgt, false, oom, turns);
  }

  lemma MappedLength(bus: nat -> nat, es: seq<Entry>)
    ensures |Mapped(bus, es)| == |es|
  {
  }

  lemma NothingMapped(blen: nat)
    ensures Fits([], blen) && Total([]) == 0
  {
  }
}
