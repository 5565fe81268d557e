/** Page identity and empty frames (src/storage/page/page.rs). */
module StoragePage {
  import opened Bytes

  /** The largest `usize`; the platform width is fixed here once (64 bits). */
  const UsizeMax: nat := 0xFFFF_FFFF_FFFF_FFFF

  type Usize = x: nat | x <= UsizeMax

  /** The page size the engine uses unless told otherwise: two 4 KiB OS pages. */
  const DefaultPageSize: Usize := 4096 * 2

  /** A page identifier wrapping one `usize`; `UsizeMax` is the "invalid" sentinel. */
  datatype PageId = PageId(raw: Usize)

  /** The derived total order of `PageId`. */
  datatype Ordering = Less | Equal | Greater

  /** `PageId::new`: wraps `id` unchanged; the result is valid unless `id` is the sentinel. */
  function NewPageId(id: Usize): (p: PageId)
    ensures p.raw == id
    ensures IsValid(p) <==> id != UsizeMax
  {
    PageId(id)
  }

  /** `PageId::new_invalid`: the sentinel identifier of a frame that holds no page. */
  function NewInvalid(): (p: PageId)
    ensures !IsValid(p)
  {
    PageId(UsizeMax)
  }

  /** `PageId::is_valid`: every identifier except the sentinel is valid. */
  predicate IsValid(p: PageId): (b: bool)
    ensures b <==> p.raw < UsizeMax
  {
    p.raw != UsizeMax
  }

  /** The sentinel is the one and only invalid identifier. */
  lemma {:induction false} InvalidIsUnique(p: PageId)
    ensures !IsValid(p) <==> p == NewInvalid()
  {
  }

  /** `PageId::offset`: the byte offset of the page in a file of `pageSize`-byte slots.
      The Rust multiplication is unchecked, so callers must keep the product in `usize`. */
  function Offset(p: PageId, pageSize: Usize): (r: Usize)
    requires p.raw * pageSize <= UsizeMax
    ensures pageSize > 0 ==> r % pageSize == 0 && r / pageSize == p.raw
  {
    if pageSize > 0 then SlotStartDivision(p.raw, pageSize); p.raw * pageSize
    else p.raw * pageSize
  }

  /** The unit test of `PageId`: id 42 with 4096-byte pages starts at byte 42 * 4096. */
  lemma OffsetOfPage42()
    ensures NewPageId(42).raw == 42
    ensures Offset(NewPageId(42), 4096) == 172032
  {
  }

  /** Offsets lay pages end to end: page `p.raw + 1` starts where page `p` ends. */
  lemma {:induction false} OffsetOfNextPage(p: PageId, pageSize: Usize)
    requires p.raw < UsizeMax && (p.raw + 1) * pageSize <= UsizeMax
    ensures p.raw * pageSize <= UsizeMax
    ensures Offset(PageId(p.raw + 1), pageSize) == Offset(p, pageSize) + pageSize
  {
    SlotsAbut(p.raw, pageSize);
  }

  /** With a positive page size, distinct pages start at distinct offsets. */
  lemma {:induction false} OffsetInjective(p: PageId, q: PageId, pageSize: Usize)
    requires pageSize > 0
    requires p.raw * pageSize <= UsizeMax && q.raw * pageSize <= UsizeMax
    ensures Offset(p, pageSize) == Offset(q, pageSize) <==> p == q
  {
    if Offset(p, pageSize) == Offset(q, pageSize) {
      SlotStartInjective(p.raw, q.raw, pageSize);
    }
  }

  /** With a positive page size, offsets follow the order of the identifiers. */
  lemma {:induction false} OffsetMonotone(p: PageId, q: PageId, pageSize: Usize)
    requires pageSize > 0
    requires p.raw * pageSize <= UsizeMax && q.raw * pageSize <= UsizeMax
    ensures Compare(p, q) == Less <==> Offset(p, pageSize) < Offset(q, pageSize)
  {
    if p.raw < q.raw {
      SlotsOrdered(p.raw, q.raw, pageSize);
    } else {
      MulMonotone(q.raw, p.raw, pageSize);
    }
  }

  /** The derived `Ord` of `PageId`: it compares the wrapped integers, so equality and
      order coincide with those of `usize`. */
  function Compare(a: PageId, b: PageId): (o: Ordering)
    ensures o == Equal <==> a == b
    ensures o == Less <==> a.raw < b.raw
    ensures o == Greater <==> b.raw < a.raw
  {
    if a.raw < b.raw then Less else if a.raw == b.raw then Equal else Greater
  }

  /** The derived order is a total order: antisymmetric and transitive. */
  lemma {:induction false} CompareIsTotalOrder(a: PageId, b: PageId, c: PageId)
    ensures Compare(a, b) == Less <==> Compare(b, a) == Greater
    ensures Compare(a, b) == Less && Compare(b, c) == Less ==> Compare(a, c) == Less
  {
  }

  /** One in-memory frame: the identifier of the page it holds and its bytes. */
  datatype Page = Page(pageId: PageId, data: seq<Byte>)

  /** `Page::new`: an empty frame of `pageSize` zero bytes holding no page. */
  function NewPage(pageSize: Usize): (pg: Page)
    ensures |pg.data| == pageSize
    ensures forall i | 0 <= i < |pg.data| :: pg.data[i] == 0
    ensures pg.pageId == NewInvalid() && !IsValid(pg.pageId)
  {
    Page(NewInvalid(), Zeros(pageSize))
  }
}
