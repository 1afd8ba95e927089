/** Page windows over one ranked list, with the `uint32` offset of the compiled query. */
module Paging {
  import opened Arithmetic
  import opened Ordered
  import opened Documents
  import opened Query

  /** The offset is the true one exactly while the true one fits 32 bits. */
  lemma OffsetExactly(page: uint32, size: uint32)
    requires page >= 1
    ensures Offset(page, size) == (page - 1) * size <==> (page - 1) * size < TWO32
  {
    assert (page - 1) % TWO32 == page - 1;
    assert 0 <= (page - 1) * size;
  }

  /** No allowed page size wraps up to page 42949673. */
  lemma FirstPagesAreExact(page: uint32, size: uint32)
    requires 1 <= page <= 42949673 && 1 <= size <= 100
    ensures Offset(page, size) == (page - 1) * size
  {
    hide Offset;
    MulMono(page - 1, size, 100);
    OffsetExactly(page, size);
  }

  /** At the largest page size the page after that starts over at offset 4. */
  lemma FirstWrappingPage()
    ensures Offset(42949674, 100) == 4
  {
    assert 42949673 * 100 == TWO32 + 4;
  }

  function PageCount(n: nat, size: nat): nat
    requires size > 0
  {
    (n + size - 1) / size
  }

  /** The first `pages` pages, one after the other. */
  function Pages(found: seq<Document>, size: uint32, pages: uint32): seq<Document> {
    if pages == 0 then [] else Pages(found, size, pages - 1) + Window(found, Offset(pages, size), size)
  }

  lemma {:induction false} PagesArePrefix(found: seq<Document>, size: uint32, pages: uint32)
    requires size > 0
    requires pages > 0 ==> (pages - 1) * size < TWO32
    ensures Pages(found, size, pages) == if pages * size <= |found| then found[..pages * size] else found
  {
    if pages > 0 {
      assert (pages - 1) * size == pages * size - size;
      if pages > 1 { assert (pages - 2) * size == pages * size - 2 * size; }
      PagesArePrefix(found, size, pages - 1);
      OffsetExactly(pages, size);
    }
  }

  lemma {:induction false} PagesGrow(found: seq<Document>, size: uint32, p: uint32, q: uint32)
    requires p <= q
    ensures Pages(found, size, p) <= Pages(found, size, q)
    decreases q - p
  {
    hide Offset, Window;
    if p < q { PagesGrow(found, size, p, q - 1); }
  }

  /** A page whose offset wraps repeats documents from an earlier position. */
  lemma WrappedPageRepeats(found: seq<Document>, size: uint32, page: uint32)
    requires size > 0 && page > 1 && Distinct(found)
    requires (page - 2) * size < TWO32 <= (page - 1) * size < |found|
    ensures !(Pages(found, size, page) <= found)
  {
    var start, wrapped := (page - 1) * size, Offset(page, size);
    assert (page - 2) * size == start - size;
    PagesArePrefix(found, size, page - 1);
    assert Pages(found, size, page - 1) == found[..start];
    assert wrapped < TWO32 <= start;
    var window := Window(found, wrapped, size);
    assert window[0] == found[wrapped];
    assert Pages(found, size, page)[start] == found[wrapped];
  }

  lemma LastPage(n: nat, size: nat)
    requires size > 0 && n > 0
    ensures PageCount(n, size) > 0
    ensures (PageCount(n, size) - 1) * size < n <= PageCount(n, size) * size
  {
    var p := PageCount(n, size);
    assert n + size - 1 == p * size + (n + size - 1) % size;
    assert (p - 1) * size == p * size - size;
  }

  lemma NoPages(size: nat)
    requires size > 0
    ensures PageCount(0, size) == 0
  {
    assert 0 <= size - 1 < size;
  }

  lemma WrappingMissesTheList(found: seq<Document>, size: uint32, p: uint32)
    requires 1 <= size <= 100 && Distinct(found)
    requires p > 0 && TWO32 <= (p - 1) * size < |found|
    ensures Pages(found, size, p) != found
  {
    hide Offset, Pages, PageCount, Window;
    var q := PageCount(TWO32, size) + 1;
    LastPage(TWO32, size);
    FirstWrapBefore(p, q, size);
    WrappedPageRepeats(found, size, q);
    PagesGrow(found, size, q, p);
  }

  /**
   * Going through all pages gives the whole list, each document once and in order, exactly when the
   * last page starts below 2^32.
   */
  lemma PagesTileExactly(found: seq<Document>, size: uint32)
    requires 1 <= size <= 100 && Distinct(found) && PageCount(|found|, size) < TWO32
    ensures Pages(found, size, PageCount(|found|, size)) == found <==> (PageCount(|found|, size) - 1) * size < TWO32
  {
    hide Offset, PageCount, Window;
    var p := PageCount(|found|, size);
    if found == [] {
      NoPages(size);
    } else {
      hide Pages;
      LastPage(|found|, size);
      if (p - 1) * size < TWO32 {
        PagesArePrefix(found, size, p);
      } else {
        WrappingMissesTheList(found, size, p);
      }
    }
  }

  lemma FirstWrapBefore(p: nat, q: nat, size: nat)
    requires q >= 2 && size > 0 && (q - 2) * size < TWO32 <= (p - 1) * size
    ensures q <= p && (q - 1) * size <= (p - 1) * size
  {
    if p < q { MulMono(size, p - 1, q - 2); }
    MulMono(size, q - 1, p - 1);
  }
}
