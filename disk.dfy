/** Fixed-offset block storage over one file (src/storage/disk.rs).
    The backing file is abstracted as its byte contents; page `P` lives at byte
    `P * PAGE_SIZE`. */
module StorageDisk {
  import opened Bytes

  const U64Max: nat := 0xFFFF_FFFF_FFFF_FFFF

  type U64 = x: nat | x <= U64Max

  /** The page size of `LimeBaseDiskManager`: two 4 KiB OS pages. */
  const DefaultPageSize: U64 := 4096 * 2

  /** The disk layer's own page identifier, wrapping one `u64`. */
  datatype PageId = PageId(raw: U64)

  /** `PageId::new`: wraps `id` unchanged. */
  function NewPageId(id: U64): (p: PageId)
    ensures p.raw == id
  {
    PageId(id)
  }

  /** The unchecked multiplication `id * page_size` stays within `u64`. */
  predicate OffsetFits(p: PageId, pageSize: U64)
  {
    p.raw * pageSize <= U64Max
  }

  /** `PageId::offset`: the first byte of page `p` in a file of `pageSize`-byte slots. */
  function Offset(p: PageId, pageSize: U64): (r: U64)
    requires OffsetFits(p, pageSize)
    ensures pageSize > 0 ==> r % pageSize == 0 && r / pageSize == p.raw
  {
    if pageSize > 0 then SlotStartDivision(p.raw, pageSize); p.raw * pageSize
    else p.raw * pageSize
  }

  /** With a positive page size, distinct pages start at distinct offsets, so
      `read_page` and `write_page` of different ids never address the same page. */
  lemma {:induction false} OffsetInjective(p: PageId, q: PageId, pageSize: U64)
    requires pageSize > 0
    requires OffsetFits(p, pageSize) && OffsetFits(q, pageSize)
    ensures Offset(p, pageSize) == Offset(q, pageSize) <==> p == q
  {
    if Offset(p, pageSize) == Offset(q, pageSize) {
      SlotStartInjective(p.raw, q.raw, pageSize);
    }
  }

  /** The unit test of `PageId`: id 42 with 4096-byte pages starts at byte 42 * 4096. */
  lemma OffsetOfPage42()
    ensures NewPageId(42).raw == 42
    ensures Offset(NewPageId(42), 4096) == 42 * 4096
  {
  }

  /** The one way a read of the file fails in this model: `read_exact` ran into the end
      of the file before the buffer was full. */
  datatype DiskError = UnexpectedEof

  /** The outcome of `read_page`. */
  datatype Outcome = Pass | Fail(error: DiskError)

  /** What reading `n` bytes at `offset` yields. */
  datatype ReadResult = Read(bytes: seq<Byte>) | ReadFailed(error: DiskError)

  /** Seek to `offset`, then `read_exact` `n` bytes. An empty read always succeeds, even
      past the end of the file; otherwise the whole range must lie inside the file. */
  function ReadAt(file: seq<Byte>, offset: nat, n: nat): (r: ReadResult)
    ensures r.Read? <==> n == 0 || offset + n <= |file|
    ensures r.Read? ==> |r.bytes| == n
    ensures r.Read? ==> forall k | 0 <= k < n :: r.bytes[k] == file[offset + k]
    ensures r.ReadFailed? ==> r.error == UnexpectedEof
  {
    if n == 0 then Read([])
    else if offset + n <= |file| then Read(file[offset .. offset + n])
    else ReadFailed(UnexpectedEof)
  }

  /** Seek to `offset`, then `write_all` of `data`. The bytes at `[offset, offset + |data|)`
      become `data`; a write starting past the end of the file fills the gap with zero
      bytes; every other byte is kept. An empty write changes nothing, not even the
      length, since seeking alone does not extend a file. */
  function WriteAt(file: seq<Byte>, offset: nat, data: seq<Byte>): (r: seq<Byte>)
    ensures |data| == 0 ==> r == file
    ensures |data| > 0 ==> |r| == if |file| < offset + |data| then offset + |data| else |file|
    ensures forall k | 0 <= k < |data| :: offset + k < |r| && r[offset + k] == data[k]
    ensures forall k | 0 <= k < |r| && !(offset <= k < offset + |data|) ::
              r[k] == if k < |file| then file[k] else 0
  {
    if |data| == 0 then file
    else
      var padded := if offset <= |file| then file else file + Zeros(offset - |file|);
      var tail := if offset + |data| < |padded| then padded[offset + |data|..] else [];
      padded[..offset] + data + tail
  }

  /** Round trip: reading back what was just written at the same offset yields it. */
  lemma {:induction false} ReadAfterWrite(file: seq<Byte>, offset: nat, data: seq<Byte>)
    ensures ReadAt(WriteAt(file, offset, data), offset, |data|) == Read(data)
  {
    var after := WriteAt(file, offset, data);
    if |data| > 0 {
      var got := ReadAt(after, offset, |data|);
      assert got.Read?;
      assert got.bytes == data;
    }
  }

  /** Writing one whole page leaves every byte of every other page that was already in
      the file as it was. */
  lemma {:induction false} WriteLeavesOtherPages(file: seq<Byte>, pageSize: nat, i: nat, j: nat, data: seq<Byte>)
    requires i != j && |data| == pageSize
    ensures forall k: nat | InSlot(k, i, pageSize) && k < |file| ::
              k < |WriteAt(file, j * pageSize, data)| && WriteAt(file, j * pageSize, data)[k] == file[k]
  {
    var after := WriteAt(file, j * pageSize, data);
    forall k: nat | InSlot(k, i, pageSize) && k < |file|
      ensures k < |after| && after[k] == file[k]
    {
      SlotsDisjoint(i, j, pageSize, k);
    }
  }

  /** A page that reads back as `x` still does after another page is written. */
  lemma {:induction false} ReadOtherPageAfterWrite(file: seq<Byte>, pageSize: nat, i: nat, j: nat, data: seq<Byte>)
    requires i != j && |data| == pageSize
    requires ReadAt(file, i * pageSize, pageSize).Read?
    ensures ReadAt(WriteAt(file, j * pageSize, data), i * pageSize, pageSize)
         == ReadAt(file, i * pageSize, pageSize)
  {
    if pageSize > 0 {
      var after := WriteAt(file, j * pageSize, data);
      WriteLeavesOtherPages(file, pageSize, i, j, data);
      assert after[i * pageSize .. i * pageSize + pageSize] == file[i * pageSize .. i * pageSize + pageSize] by {
        forall k | i * pageSize <= k < i * pageSize + pageSize
          ensures after[k] == file[k]
        {
          assert InSlot(k, i, pageSize);
        }
      }
    }
  }

  /** Page `i` of the file reads back as `pages[i]`, for every `i < |pages|`. */
  predicate Stores(file: seq<Byte>, pageSize: nat, pages: seq<seq<Byte>>)
  {
    forall i | 0 <= i < |pages| :: ReadAt(file, i * pageSize, pageSize) == Read(pages[i])
  }

  /** Overwriting page `j` with a whole page `d` keeps every other page and makes page `j`
      read back as `d`. */
  lemma {:induction false} StoresAfterOverwrite(file: seq<Byte>, pageSize: nat, pages: seq<seq<Byte>>, j: nat, d: seq<Byte>)
    requires Stores(file, pageSize, pages)
    requires j < |pages| && |d| == pageSize
    ensures Stores(WriteAt(file, j * pageSize, d), pageSize, pages[j := d])
  {
    var after := WriteAt(file, j * pageSize, d);
    forall i | 0 <= i < |pages|
      ensures ReadAt(after, i * pageSize, pageSize) == Read(pages[j := d][i])
    {
      if i == j {
        ReadAfterWrite(file, j * pageSize, d);
      } else {
        ReadOtherPageAfterWrite(file, pageSize, i, j, d);
      }
    }
  }

  /** Writing a whole page `d` just past the stored pages keeps them and adds `d`. */
  lemma {:induction false} StoresAfterAppend(file: seq<Byte>, pageSize: nat, pages: seq<seq<Byte>>, d: seq<Byte>)
    requires Stores(file, pageSize, pages)
    requires |d| == pageSize
    ensures Stores(WriteAt(file, |pages| * pageSize, d), pageSize, pages + [d])
  {
    var j := |pages|;
    var after := WriteAt(file, j * pageSize, d);
    forall i | 0 <= i < |pages| + 1
      ensures ReadAt(after, i * pageSize, pageSize) == Read((pages + [d])[i])
    {
      if i == j {
        ReadAfterWrite(file, j * pageSize, d);
      } else {
        ReadOtherPageAfterWrite(file, pageSize, i, j, d);
      }
    }
  }

  /** A write through a file opened in append mode, as `BasicDiskManager::new` opens a
      file that already exists: the operating system places every write at the end of
      the file, whatever offset was sought before. */
  function AppendWrite(file: seq<Byte>, data: seq<Byte>): (r: seq<Byte>)
    ensures |r| == |file| + |data|
    ensures r[..|file|] == file && r[|file|..] == data
  {
    file + data
  }

  /** On a reopened file, writing a page that is already in the file leaves that page
      as it was: the bytes land after the end of the file instead. */
  lemma {:induction false} AppendWriteMissesPage(file: seq<Byte>, offset: nat, data: seq<Byte>)
    requires offset + |data| <= |file|
    ensures ReadAt(AppendWrite(file, data), offset, |data|) == ReadAt(file, offset, |data|)
  {
    var after := AppendWrite(file, data);
    if |data| > 0 {
      assert after[offset .. offset + |data|] == file[offset .. offset + |data|];
    }
  }

  /** A concrete instance: reopen a file holding two zero-filled default pages, write
      page 0 as all ones, and page 0 still reads back as zeros. */
  lemma ReopenedWriteIsLost()
    ensures var file := Zeros(2 * DefaultPageSize);
            var ones := seq(DefaultPageSize, _ => 1 as Byte);
            ReadAt(AppendWrite(file, ones), Offset(NewPageId(0), DefaultPageSize), DefaultPageSize)
              == Read(Zeros(DefaultPageSize))
  {
    var file := Zeros(2 * DefaultPageSize);
    var ones := seq(DefaultPageSize, _ => 1 as Byte);
    AppendWriteMissesPage(file, 0, ones);
    assert file[0..DefaultPageSize] == Zeros(DefaultPageSize);
  }

  /** `BasicDiskManager<PAGE_SIZE>`: the const parameter `PAGE_SIZE` and the contents of
      the file behind the lock. */
  class BasicDiskManager {
    const pageSize: U64
    var file: seq<Byte>

    /** `BasicDiskManager::new` on a path where no file exists yet: a new, empty file. */
    constructor (pageSize: U64)
      ensures this.pageSize == pageSize && PageSize() == pageSize
      ensures file == []
    {
      this.pageSize := pageSize;
      file := [];
    }

    /** `LimeBaseDiskManager::new`: the manager fixed to the default page size. */
    constructor LimeBase()
      ensures PageSize() == DefaultPageSize && PageSize() == 8192
      ensures file == []
    {
      pageSize := DefaultPageSize;
      file := [];
    }

    /** `page_size`: the const parameter `PAGE_SIZE`. */
    function PageSize(): (r: U64)
      ensures r == pageSize
    {
      pageSize
    }

    /** `read_page`: read the page at `id * PAGE_SIZE` into `buf`. On success `buf` holds
        the file's bytes there; when the file ends before `buf` is full the read fails
        (and `buf` is left unspecified, as for `read_exact`). The file never changes. */
    method ReadPage(id: PageId, buf: array<Byte>) returns (r: Outcome)
      requires OffsetFits(id, pageSize)
      modifies buf
      ensures file == old(file)
      ensures match ReadAt(file, Offset(id, pageSize), buf.Length)
              case Read(bytes) => r == Pass && buf[..] == bytes
              case ReadFailed(e) => r == Fail(e)
    {
      var offset := Offset(id, PageSize());
      var got := ReadAt(file, offset, buf.Length);
      match got
      case Read(bytes) =>
        forall k | 0 <= k < buf.Length {
          buf[k] := bytes[k];
        }
        r := Pass;
      case ReadFailed(e) =>
        r := Fail(e);
    }

    /** `write_page`: write all of `data` at `id * PAGE_SIZE`, extending the file if
        needed. Its offset is computed inline but agrees with `read_page`'s. */
    method WritePage(id: PageId, data: seq<Byte>)
      requires OffsetFits(id, pageSize)
      modifies this`file
      ensures file == WriteAt(old(file), Offset(id, pageSize), data)
    {
      var offset := id.raw * pageSize;
      file := WriteAt(file, offset, data);
    }
  }

  /** One iteration of the second loop of the read/write test: read page `index` back,
      then possibly overwrite page `replaced` with fresh bytes. */
  datatype Step = ReadOnly(index: nat) | ReadThenReplace(index: nat, replaced: nat, bytes: seq<Byte>)

  /** The data the test expects in each page after `steps`: every `ReadThenReplace`
      overwrites one page's data with its new bytes; a `ReadOnly` step changes nothing. */
  function Latest(pages: seq<seq<Byte>>, steps: seq<Step>): (r: seq<seq<Byte>>)
    ensures |r| == |pages|
    decreases |steps|
  {
    if steps == [] then pages
    else
      var before := Latest(pages, steps[..|steps| - 1]);
      var last := steps[|steps| - 1];
      if last.ReadThenReplace? && last.replaced < |before| then before[last.replaced := last.bytes]
      else before
  }

  /** The read/write test, with its random choices as parameters: write `pages` as pages
      0, 1, ...; then run `steps`, each read checked against the latest data written to
      that page. Returns the data the file holds at the end. */
  method ReadWriteScenario(m: BasicDiskManager, pages: seq<seq<Byte>>, steps: seq<Step>)
    returns (current: seq<seq<Byte>>)
    requires forall i | 0 <= i < |pages| :: |pages[i]| == m.pageSize
    requires |pages| <= U64Max && |pages| * m.pageSize <= U64Max
    requires forall t | 0 <= t < |steps| :: steps[t].index < |pages|
    requires forall t | 0 <= t < |steps| :: steps[t].ReadThenReplace? ==>
               steps[t].replaced < |pages| && |steps[t].bytes| == m.pageSize
    modifies m
    ensures current == Latest(pages, steps)
    ensures Stores(m.file, m.pageSize, current)
  {
    for i := 0 to |pages|
      invariant Stores(m.file, m.pageSize, pages[..i])
    {
      MulMonotone(i, |pages|, m.pageSize);
      ghost var before := m.file;
      m.WritePage(NewPageId(i), pages[i]);
      StoresAfterAppend(before, m.pageSize, pages[..i], pages[i]);
      assert pages[..i + 1] == pages[..i] + [pages[i]];
    }
    assert pages[..|pages|] == pages;
    current := pages;
    for t := 0 to |steps|
      invariant current == Latest(pages, steps[..t])
      invariant forall i | 0 <= i < |current| :: |current[i]| == m.pageSize
      invariant Stores(m.file, m.pageSize, current)
    {
      var step := steps[t];
      MulMonotone(step.index, |pages|, m.pageSize);
      var buf := new Byte[m.pageSize](_ => 0);
      var r := m.ReadPage(NewPageId(step.index), buf);
      assert r == Pass && buf[..] == current[step.index];
      if step.ReadThenReplace? {
        MulMonotone(step.replaced, |pages|, m.pageSize);
        ghost var before := m.file;
        m.WritePage(NewPageId(step.replaced), step.bytes);
        StoresAfterOverwrite(before, m.pageSize, current, step.replaced, step.bytes);
        current := current[step.replaced := step.bytes];
      }
      assert steps[..t + 1][..t] == steps[..t];
    }
    assert steps[..|steps|] == steps;
  }
}
