/** Scatter lists, and the split of a scatter list into software descriptors. */
module Request {
  import opened Bits

  /** A contiguous bus range: a mapped scatter-list entry, or a `struct sw_desc`. */
  datatype Entry = Entry(addr: nat, len: nat)

  function Range(e: Entry): seq<nat> { seq(e.len, i => e.addr + i) }

  /** The bus address of every byte of a list, in order. */
  function Addresses(es: seq<Entry>): seq<nat> {
    if es == [] then [] else Range(es[0]) + Addresses(es[1..])
  }

  function Total(es: seq<Entry>): nat {
    if es == [] then 0 else es[0].len + Total(es[1..])
  }

  /** The pieces one entry is cut into (the inner loop of `xdma_init_request`). */
  function SplitEntry(e: Entry, blen: nat): seq<Entry>
    requires blen >= 1
    decreases e.len
  {
    if e.len == 0 then []
    else if e.len > blen then [Entry(e.addr, blen)] + SplitEntry(Entry(e.addr + blen, e.len - blen), blen)
    else [e]
  }

  function SplitAll(es: seq<Entry>, blen: nat): seq<Entry>
    requires blen >= 1
  {
    if es == [] then [] else SplitEntry(es[0], blen) + SplitAll(es[1..], blen)
  }

  function CeilDiv(n: nat, b: nat): nat
    requires b >= 1
  {
    (n + b - 1) / b
  }

  /** The extra slots counted for an over-long entry. */
  function ExtraFor(e: Entry, blen: nat): nat
    requires blen >= 1
  {
    if e.len > blen then CeilDiv(e.len, blen) else 0
  }

  function Extra(es: seq<Entry>, blen: nat): nat
    requires blen >= 1
  {
    if es == [] then 0 else ExtraFor(es[0], blen) + Extra(es[1..], blen)
  }

  // ---- sequence facts ----

  lemma {:induction false} AddressesAppend(a: seq<Entry>, b: seq<Entry>)
    ensures Addresses(a + b) == Addresses(a) + Addresses(b)
  {
    hide Range;
    if a == [] {
      assert a + b == b;
    } else {
      AddressesAppend(a[1..], b);
      assert (a + b)[1..] == a[1..] + b;
      var r := Range(a[0]);
      assert r + (Addresses(a[1..]) + Addresses(b)) == (r + Addresses(a[1..])) + Addresses(b);
    }
  }

  lemma EmptyList(es: seq<Entry>, blen: nat)
    requires es == [] && blen >= 1
    ensures SplitAll(es, blen) == [] && Extra(es, blen) == 0 && Total(es) == 0
  {
  }

  lemma {:induction false} TotalAppend(a: seq<Entry>, b: seq<Entry>)
    ensures Total(a + b) == Total(a) + Total(b)
  {
    if a == [] {
      assert a + b == b;
    } else {
      TotalAppend(a[1..], b);
      assert (a + b)[1..] == a[1..] + b;
    }
  }

  lemma {:induction false} TotalIsLength(es: seq<Entry>)
    ensures |Addresses(es)| == Total(es)
  {
    if es == [] {
    } else {
      TotalIsLength(es[1..]);
    }
  }

  lemma {:induction false} SplitAllSnoc(a: seq<Entry>, e: Entry, blen: nat)
    requires blen >= 1
    ensures SplitAll(a + [e], blen) == SplitAll(a, blen) + SplitEntry(e, blen)
    ensures Extra(a + [e], blen) == Extra(a, blen) + ExtraFor(e, blen)
    ensures Total(a + [e]) == Total(a) + e.len
  {
    hide ExtraFor, SplitEntry;
    if a == [] {
      assert a + [e] == [e];
      assert SplitAll([e], blen) == SplitEntry(e, blen) + [];
    } else {
      SplitAllSnoc(a[1..], e, blen);
      assert (a + [e])[1..] == a[1..] + [e];
    }
  }

  // ---- what the split means ----

  /** Ceiling division, one step down. */
  lemma CeilStep(n: nat, b: nat)
    requires b >= 1 && n > b
    ensures CeilDiv(n, b) == 1 + CeilDiv(n - b, b)
  {
    var q, r := DivModSum(n - 1, b);
    DivModUnique(n + b - 1, b, q + 1, r);
  }

  lemma {:induction false} SplitEntryMeaning(e: Entry, blen: nat)
    requires blen >= 1
    ensures Addresses(SplitEntry(e, blen)) == Range(e)
    ensures forall p :: p in SplitEntry(e, blen) ==> 1 <= p.len <= blen
    ensures |SplitEntry(e, blen)| == CeilDiv(e.len, blen)
    decreases e.len
  {
    if e.len == 0 {
      DivModUnique(blen - 1, blen, 0, blen - 1);
    } else if e.len > blen {
      var rest := Entry(e.addr + blen, e.len - blen);
      SplitEntryMeaning(rest, blen);
      CeilStep(e.len, blen);
      AddressesAppend([Entry(e.addr, blen)], SplitEntry(rest, blen));
      assert Addresses([Entry(e.addr, blen)]) == Range(Entry(e.addr, blen));
      assert Range(Entry(e.addr, blen)) + Range(rest) == Range(e);
    } else {
      assert Addresses([e]) == Range(e);
      DivModUnique(e.len + blen - 1, blen, 1, e.len - 1);
    }
  }

  /** The split preserves every byte and its order, makes no empty and no over-long piece, and never
      needs more slots than were counted. */
  lemma {:induction false} SplitMeaning(es: seq<Entry>, blen: nat)
    requires blen >= 1
    ensures Addresses(SplitAll(es, blen)) == Addresses(es)
    ensures forall p :: p in SplitAll(es, blen) ==> 1 <= p.len <= blen
    ensures |SplitAll(es, blen)| <= |es| + Extra(es, blen)
  {
    hide ExtraFor, SplitEntry;
    if es == [] {
    } else {
      SplitEntryMeaning(es[0], blen);
      SplitMeaning(es[1..], blen);
      AddressesAppend(SplitEntry(es[0], blen), SplitAll(es[1..], blen));
      SplitCount(es[0], blen);
    }
  }

  lemma SplitCount(e: Entry, blen: nat)
    requires blen >= 1
    ensures |SplitEntry(e, blen)| <= 1 + ExtraFor(e, blen)
  {
    if e.len > blen {
      SplitEntryMeaning(e, blen);
    }
  }

  /** No 32-bit overflow in the slot count, the length total or an entry's end address. */
  ghost predicate Fits(es: seq<Entry>, blen: nat) {
    && Total(es) < U32
    && forall e :: e in es ==> e.len + blen - 1 < U32 && e.addr + e.len <= U64
  }

  // ---- the request ----

  /** `struct xdma_request_cb`, the fields that memory-mapped submission uses. */
  class RequestCb {
    var sdesc: array<Entry>
    var swDescCnt: nat
    var swDescIdx: nat
    var epAddr: nat
    var totalLen: nat

    constructor (slots: nat, ep: nat)
      ensures fresh(sdesc) && sdesc.Length == slots
      ensures swDescCnt == 0 && swDescIdx == 0 && epAddr == ep && totalLen == 0
    {
      sdesc := new Entry[slots](_ => Entry(0, 0));
      swDescCnt, swDescIdx, epAddr, totalLen := 0, 0, ep, 0;
    }
  }

  /** The counting loop of `xdma_init_request`. */
  method CountSlots(sgl: seq<Entry>, blen: nat) returns (max: nat)
    requires blen >= 1 && Fits(sgl, blen)
    ensures max == |sgl| + Extra(sgl, blen)
  {
    hide Extra, Total, SplitAll;
    var extra := 0;
    EmptyList(sgl[..0], blen);
    for i := 0 to |sgl|
      invariant extra == Extra(sgl[..i], blen)
    {
      var len := sgl[i].len;
      SplitAllSnoc(sgl[..i], sgl[i], blen);
      assert sgl[..i] + [sgl[i]] == sgl[..i + 1];
      assert sgl[i] in sgl;
      if len > blen {
        extra := extra + ((len + blen - 1) % U32) / blen;
      }
      assert extra == Extra(sgl[..i], blen) + ExtraFor(sgl[i], blen);
    }
    assert sgl[..|sgl|] == sgl;
    max := |sgl| + extra;
  }

  /** The splitting loop for one entry; returns the next free slot. */
  method FillEntry(sdesc: array<Entry>, start: nat, e: Entry, blen: nat) returns (j: nat)
    requires blen >= 1 && start + |SplitEntry(e, blen)| <= sdesc.Length
    modifies sdesc
    ensures j == start + |SplitEntry(e, blen)|
    ensures sdesc[..j] == old(sdesc[..start]) + SplitEntry(e, blen)
  {
    j := start;
    var tlen: nat, addr: nat := e.len, e.addr;
    while tlen > 0
      invariant start <= j && j + |SplitEntry(Entry(addr, tlen), blen)| <= sdesc.Length
      invariant sdesc[..j] + SplitEntry(Entry(addr, tlen), blen) == old(sdesc[..start]) + SplitEntry(e, blen)
    {
      ghost var rest := SplitEntry(Entry(addr, tlen), blen);
      ghost var before := sdesc[..j];
      if tlen > blen {
        sdesc[j] := Entry(addr, blen);
        addr, tlen := addr + blen, tlen - blen;
      } else {
        sdesc[j] := Entry(addr, tlen);
        tlen := 0;
      }
      assert rest == [sdesc[j]] + SplitEntry(Entry(addr, tlen), blen);
      assert sdesc[..j + 1] == before + [sdesc[j]];
      j := j + 1;
    }
  }

  /** `xdma_init_request`. `oom` is the outcome of the allocation; a null result is its -ENOMEM path.
      Every slot written lies inside the allocation, so the late `j > max` test never fires. */
  method InitRequest(sgl: seq<Entry>, ep: nat, blen: nat, oom: bool) returns (req: RequestCb?)
    requires blen >= 1 && Fits(sgl, blen)
    ensures oom <==> req == null
    ensures req != null ==>
              && fresh(req) && fresh(req.sdesc)
              && req.swDescCnt <= req.sdesc.Length == |sgl| + Extra(sgl, blen)
              && req.sdesc[..req.swDescCnt] == SplitAll(sgl, blen)
              && req.swDescIdx == 0 && req.epAddr == ep && req.totalLen == Total(sgl)
  {
    hide SplitAll, SplitEntry, Extra, Total;
    var max := CountSlots(sgl, blen);
    if oom {
      return null;
    }
    req := new RequestCb(max, ep);
    SplitMeaning(sgl, blen);
    EmptyList(sgl[..0], blen);
    var j := 0;
    for i := 0 to |sgl|
      invariant fresh(req) && fresh(req.sdesc) && req.sdesc.Length == max
      invariant req.swDescCnt == 0 && req.swDescIdx == 0 && req.epAddr == ep
      invariant j == |SplitAll(sgl[..i], blen)| <= max
      invariant req.sdesc[..j] == SplitAll(sgl[..i], blen)
      invariant req.totalLen == Total(sgl[..i])
    {
      SplitAllSnoc(sgl[..i], sgl[i], blen);
      assert sgl[..i] + [sgl[i]] == sgl[..i + 1];
      PrefixCounts(sgl, i + 1, blen);
      req.totalLen := (req.totalLen + sgl[i].len) % U32;
      j := FillEntry(req.sdesc, j, sgl[i], blen);
    }
    assert sgl[..|sgl|] == sgl;
    if j > max {
      assert false;
    }
    req.swDescCnt := j;
  }

  /** A prefix of the list needs no more slots, and holds no more bytes, than the whole. */
  lemma {:induction false} PrefixCounts(es: seq<Entry>, i: nat, blen: nat)
    requires blen >= 1 && i <= |es|
    ensures |SplitAll(es[..i], blen)| <= |SplitAll(es, blen)|
    ensures Total(es[..i]) <= Total(es)
  {
    hide SplitEntry;
    if i == 0 {
    } else {
      PrefixCounts(es[1..], i - 1, blen);
      assert es[..i][1..] == es[1..][..i - 1];
    }
  }
}
