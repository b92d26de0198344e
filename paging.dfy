/** Splitting a payload into the pages of a multi-report transfer, as the
    `while bytes_remaining > 0` loops of `write_image` and `write_lcd` do. */
module Paging {
  import opened Bytes

  /** One page: its number, its slice of the payload, and whether it is the final one. */
  datatype Page = Page(number: nat, chunk: seq<byte>, last: bool)

  /** The pages emitted for `data` when the first page is numbered `first` and a report carries
      at most `size` payload bytes. A page is last exactly when it takes all remaining bytes. */
  function PagesFrom(data: seq<byte>, size: nat, first: nat): (pages: seq<Page>)
    requires size > 0 || |data| == 0
    ensures |data| == 0 <==> pages == []
    ensures forall i :: 0 <= i < |pages| ==> pages[i].number == first + i
    ensures forall i :: 0 <= i < |pages| ==> 0 < |pages[i].chunk| <= size
    ensures forall i :: 0 <= i < |pages| ==> (pages[i].last <==> i == |pages| - 1)
    ensures forall i :: 0 <= i < |pages| && !pages[i].last ==> |pages[i].chunk| == size
    decreases |data|
  {
    if |data| == 0 then []
    else if |data| <= size then [Page(first, data, true)]
    else [Page(first, data[..size], false)] + PagesFrom(data[size..], size, first + 1)
  }

  /** The pages of a whole transfer, numbered from zero. */
  function Pages(data: seq<byte>, size: nat): (pages: seq<Page>)
    requires size > 0 || |data| == 0
  {
    PagesFrom(data, size, 0)
  }

  /** The payload bytes of a run of pages, in page order. */
  function Chunks(pages: seq<Page>): (bytes: seq<byte>)
  {
    if pages == [] then [] else pages[0].chunk + Chunks(pages[1..])
  }

  /** One step of the transfer loop: the first page takes min(remaining, size) bytes. */
  lemma PagesFromStep(data: seq<byte>, size: nat, first: nat)
    requires size > 0 && |data| > 0
    ensures var len := Min(|data|, size);
      PagesFrom(data, size, first)
        == [Page(first, data[..len], len == |data|)] + PagesFrom(data[len..], size, first + 1)
  {
    if |data| <= size {
      assert data[..|data|] == data;
    }
  }

  /** Where a transfer loop stands after `page` reports with `remaining` bytes still to send:
      bytes are left exactly while pages are, and those sent are `page` whole payloads. */
  ghost predicate Progress(data: seq<byte>, size: nat, page: nat, remaining: nat)
    requires size > 0 || |data| == 0
  {
    var pages := Pages(data, size);
    && remaining <= |data|
    && page <= |pages|
    && (remaining > 0 <==> page < |pages|)
    && (remaining > 0 ==> page * size == |data| - remaining)
  }

  /** One pass of a transfer loop: with `remaining` bytes left, page `page` takes
      min(remaining, size) bytes from `page * size` on, is last exactly when that is all that
      remains, and the loop then stands at the next page. */
  lemma ProgressStep(data: seq<byte>, size: nat, page: nat, remaining: nat)
    requires size > 0 && Progress(data, size, page, remaining) && remaining > 0
    ensures var len := Min(remaining, size);
      var sent := page * size;
      && 0 < len <= remaining
      && sent + len <= |data|
      && page < |Pages(data, size)|
      && Pages(data, size)[page] == Page(page, data[sent .. sent + len], len == remaining)
      && (len == remaining <==> remaining <= size)
      && Progress(data, size, page + 1, remaining - len)
  {
    PagesFromAt(data, size, 0, page);
    assert (page + 1) * size == page * size + size;
  }

  /** Page i in closed form: it starts at byte i * size, takes min(remaining, size) bytes and
      is last exactly when the bytes left from i * size on fit in one page. */
  lemma {:induction false} PagesFromAt(data: seq<byte>, size: nat, first: nat, i: nat)
    requires size > 0 && i < |PagesFrom(data, size, first)|
    ensures var sent := i * size;
      var len := Min(|data| - sent, size);
      && 0 <= sent < |data|
      && PagesFrom(data, size, first)[i] == Page(first + i, data[sent .. sent + len], |data| - sent <= size)
    decreases |data|
  {
    if i == 0 {
      PagesFromStep(data, size, first);
    } else {
      assert |data| > size;
      var tail := data[size..];
      var rest := PagesFrom(tail, size, first + 1);
      assert PagesFrom(data, size, first) == [Page(first, data[..size], false)] + rest;
      PagesFromAt(tail, size, first + 1, i - 1);
      var j := (i - 1) * size;
      var len := Min(|tail| - j, size);
      assert j + size == i * size;
      assert |tail| - j == |data| - i * size;
      assert len == Min(|data| - i * size, size);
      assert tail[j .. j + len] == data[i * size .. i * size + len];
    }
  }

  /** Concatenating the chunks in page order reproduces the payload. */
  lemma {:induction false} PagesReassemble(data: seq<byte>, size: nat, first: nat)
    requires size > 0 || |data| == 0
    ensures Chunks(PagesFrom(data, size, first)) == data
    decreases |data|
  {
    var pages := PagesFrom(data, size, first);
    if |data| == 0 {
    } else if |data| <= size {
      assert Chunks(pages) == data + Chunks([]);
    } else {
      PagesReassemble(data[size..], size, first + 1);
      assert pages[1..] == PagesFrom(data[size..], size, first + 1);
      assert data == data[..size] + data[size..];
    }
  }

  /** A transfer of n > 0 bytes takes ceil(n / size) pages. */
  lemma {:induction false} PagesCount(data: seq<byte>, size: nat, first: nat)
    requires size > 0
    ensures |PagesFrom(data, size, first)| == (|data| + size - 1) / size
    decreases |data|
  {
    var n := |data|;
    if n == 0 {
      DivUnique(size - 1, size, 0, size - 1);
    } else if n <= size {
      DivUnique(n + size - 1, size, 1, n - 1);
    } else {
      PagesCount(data[size..], size, first + 1);
      var m := n - size;
      var q := (m + size - 1) / size;
      var r := (m + size - 1) % size;
      assert m + size - 1 == q * size + r;
      DivUnique(n + size - 1, size, q + 1, r);
    }
  }
}
