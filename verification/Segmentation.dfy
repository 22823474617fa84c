// How one transmission request becomes a list of TX descriptors: no descriptor
// exceeds the largest PCIe transfer, none crosses the end of the 2 MB page, and a
// request that reaches the end of the page goes on at its beginning.
module Segmentation {
  import opened Consts

  // A descriptor as it is written: the region, whether it ends its request, and the
  // signal it is published with.
  datatype Desc = Desc(addr: nat, len: nat, last: bool, signal: nat)

  // Data descriptors carry this signal; higher ones mark configurations.
  const DATA_SIGNAL: nat := 1

  function PageBase(addr: nat): nat { addr - addr % BUF_PAGE_SIZE }

  // Size of the next descriptor for `len` missing bytes at `addr`.
  function ChunkLen(addr: nat, len: nat): nat {
    Min(Min(len, MAX_TRANSFER_LEN), BUF_PAGE_SIZE - addr % BUF_PAGE_SIZE)
  }

  function NextAddr(addr: nat, chunk: nat): nat {
    PageBase(addr) + (addr + chunk) % BUF_PAGE_SIZE
  }

  function Segments(addr: nat, len: nat): seq<Desc>
    decreases len
  {
    if len == 0 then []
    else
      var chunk := ChunkLen(addr, len);
      [Desc(addr, chunk, len == chunk, DATA_SIGNAL)] + Segments(NextAddr(addr, chunk), len - chunk)
  }

  // The bytes a descriptor tells the NIC to fetch.
  function DescBytes(d: Desc): seq<nat> {
    seq(d.len, i requires 0 <= i < d.len => d.addr + i)
  }

  function AllBytes(ds: seq<Desc>): seq<nat> {
    if ds == [] then [] else DescBytes(ds[0]) + AllBytes(ds[1..])
  }

  // The bytes the caller asked for: `len` bytes from `addr`, wrapping in its page.
  function CircularByte(addr: nat, i: nat): nat {
    PageBase(addr) + (addr + i) % BUF_PAGE_SIZE
  }

  function CircularRange(addr: nat, len: nat): (r: seq<nat>)
  {
    seq(len, i requires 0 <= i < len => CircularByte(addr, i))
  }

  ghost predicate WellFormed(d: Desc, page: nat) {
    && 1 <= d.len <= MAX_TRANSFER_LEN
    && page <= d.addr
    && d.addr + d.len <= page + BUF_PAGE_SIZE
  }

  lemma NextAddrFacts(addr: nat, chunk: nat)
    requires chunk <= BUF_PAGE_SIZE - addr % BUF_PAGE_SIZE
    ensures PageBase(NextAddr(addr, chunk)) == PageBase(addr)
    ensures PageBase(addr) <= addr < PageBase(addr) + BUF_PAGE_SIZE
  {
  }

  lemma CircularByteFacts(addr: nat, chunk: nat, i: nat)
    requires chunk <= BUF_PAGE_SIZE - addr % BUF_PAGE_SIZE
    ensures i < chunk ==> CircularByte(addr, i) == addr + i
    ensures CircularByte(NextAddr(addr, chunk), i) == CircularByte(addr, chunk + i)
  {
    NextAddrFacts(addr, chunk);
    var x := addr + chunk;
    assert addr == PageBase(addr) + addr % BUF_PAGE_SIZE;
    WholePages(addr / BUF_PAGE_SIZE, x % BUF_PAGE_SIZE + i);
    WholePages(x / BUF_PAGE_SIZE, x % BUF_PAGE_SIZE + i);
    WholePages(addr / BUF_PAGE_SIZE, addr % BUF_PAGE_SIZE + i);
  }

  lemma WholePages(q: nat, x: nat)
    ensures (BUF_PAGE_SIZE * q + x) % BUF_PAGE_SIZE == x % BUF_PAGE_SIZE
  {
  }

  // The descriptors tile the circular range exactly and in order.
  lemma {:induction false} SegmentsTile(addr: nat, len: nat)
    ensures AllBytes(Segments(addr, len)) == CircularRange(addr, len)
    decreases len
  {
    if len != 0 {
      var chunk := ChunkLen(addr, len);
      var next := NextAddr(addr, chunk);
      var range := CircularRange(addr, len);
      SegmentsTile(next, len - chunk);
      assert Segments(addr, len)[1..] == Segments(next, len - chunk);
      var head := DescBytes(Desc(addr, chunk, len == chunk, DATA_SIGNAL));
      assert head == range[..chunk] by {
        forall i: nat | i < chunk ensures head[i] == range[i] {
          CircularByteFacts(addr, chunk, i);
        }
      }
      var rest := CircularRange(next, len - chunk);
      assert rest == range[chunk..] by {
        forall i: nat | i < len - chunk ensures rest[i] == range[chunk..][i] {
          CircularByteFacts(addr, chunk, i);
        }
      }
    }
  }

  // Every descriptor fits one transfer and one page and is marked as data; only the last
  // one is marked last.
  lemma {:induction false} SegmentsShape(addr: nat, len: nat)
    ensures forall i :: 0 <= i < |Segments(addr, len)| ==>
              && WellFormed(Segments(addr, len)[i], PageBase(addr))
              && Segments(addr, len)[i].signal == 1
              && (Segments(addr, len)[i].last <==> i == |Segments(addr, len)| - 1)
    ensures len > 0 <==> Segments(addr, len) != []
    decreases len
  {
    if len != 0 {
      var chunk := ChunkLen(addr, len);
      NextAddrFacts(addr, chunk);
      SegmentsShape(NextAddr(addr, chunk), len - chunk);
    }
  }

  function CeilDiv(a: nat, b: nat): nat requires b > 0 { (a + b - 1) / b }

  lemma CeilFacts(len: nat, chunk: nat)
    requires chunk <= len
    ensures CeilDiv(len - chunk, MAX_TRANSFER_LEN) <= CeilDiv(len, MAX_TRANSFER_LEN)
    ensures chunk == MAX_TRANSFER_LEN ==> CeilDiv(len, MAX_TRANSFER_LEN) == CeilDiv(len - chunk, MAX_TRANSFER_LEN) + 1
  {
  }

  // Within a page a request takes one descriptor per started transfer.
  lemma {:induction false} SegmentsCountInPage(addr: nat, len: nat)
    requires len <= BUF_PAGE_SIZE - addr % BUF_PAGE_SIZE
    ensures |Segments(addr, len)| == CeilDiv(len, MAX_TRANSFER_LEN)
    decreases len
  {
    if len != 0 {
      var chunk := ChunkLen(addr, len);
      NextAddrFacts(addr, chunk);
      if chunk < len {
        SegmentsCountInPage(NextAddr(addr, chunk), len - chunk);
      }
    }
  }

  // A request of at most a page wraps at most once, so it needs at most one more.
  lemma {:induction false} SegmentsCount(addr: nat, len: nat)
    requires len <= BUF_PAGE_SIZE
    ensures |Segments(addr, len)| <= CeilDiv(len, MAX_TRANSFER_LEN) + 1
    decreases len
  {
    var room := BUF_PAGE_SIZE - addr % BUF_PAGE_SIZE;
    if len <= room {
      SegmentsCountInPage(addr, len);
    } else {
      var chunk := ChunkLen(addr, len);
      NextAddrFacts(addr, chunk);
      CeilFacts(len, chunk);
      if chunk == room {
        SegmentsCountInPage(NextAddr(addr, chunk), len - chunk);
      } else {
        SegmentsCount(NextAddr(addr, chunk), len - chunk);
      }
    }
  }

  lemma {:induction false} InAllBytes(ds: seq<Desc>, k: nat, x: nat)
    requires k < |ds| && x in DescBytes(ds[k])
    ensures x in AllBytes(ds)
  {
    if k != 0 {
      InAllBytes(ds[1..], k - 1, x);
    }
  }

  // Whatever a descriptor of the request fetches is a byte of the request.
  lemma SegmentByte(addr: nat, len: nat, k: nat, x: nat) returns (i: nat)
    requires k < |Segments(addr, len)| && x in DescBytes(Segments(addr, len)[k])
    ensures i < len && x == CircularByte(addr, i)
  {
    InAllBytes(Segments(addr, len), k, x);
    SegmentsTile(addr, len);
    i :| 0 <= i < len && CircularRange(addr, len)[i] == x;
  }
}
