# limebase storage core in Dafny

This project models the storage layer of the limebase embedded storage engine. It has
two parts:

- **Page identity and empty frames** (`src/storage/page/page.rs`, module `StoragePage`
  in `page.dfy`). A `PageId` wraps a `usize`. The largest `usize` is the reserved
  "invalid" sentinel. A page starts at byte `id * page_size`. `Page::new(n)` builds an
  empty frame: `n` zero bytes tagged with the invalid id. These are pure functions,
  and lemmas state their properties.
- **The fixed-offset disk manager** (`src/storage/disk.rs`, module `StorageDisk` in
  `disk.dfy`). `BasicDiskManager<PAGE_SIZE>` is a class. Its const field `pageSize` is
  the const parameter, and its field `file` holds the bytes of the backing file.
  `ReadPage` fills the caller's `array<Byte>` in place. `WritePage` splices its data
  into `file`, extending the file when needed. Both are specified by two functions on
  byte sequences: `ReadAt` (seek then `read_exact`) and `WriteAt` (seek then
  `write_all`). The lemmas about those functions give:
  - the round trip (read after write);
  - non-interference between pages;
  - the invariant the read/write unit test relies on: every page reads back as the
    data last written to it.

`bytes.dfy` (module `Bytes`) holds the byte type, zero-filled buffers, and the
arithmetic of fixed-size slots that both parts share.

Two details of the Rust standard library matter here, and the model follows them:

- `write_all` of an empty slice writes nothing. Seeking past the end of the file does
  not extend it on its own, so an empty write leaves the file exactly as it was.
- `read_exact` into an empty buffer succeeds even past the end of the file. A
  non-empty write that starts past the end fills the gap with zero bytes, so a
  never-written page below the end of the file reads back as zeros.

Reads and writes move `data.len()` bytes, which need not be one page. A read fails
only when it runs past the end of the file.

## Model

| member | source | states |
|---|---|---|
| `StoragePage.NewPageId` | src/storage/page/page.rs:7-9 | `PageId::new(id)` keeps `id` unchanged, and the result is valid exactly when `id` is not the sentinel `usize::MAX` |
| `StoragePage.NewInvalid` | src/storage/page/page.rs:11-13 | `new_invalid()` is not valid |
| `StoragePage.InvalidIsUnique` | src/storage/page/page.rs:11-17 | `is_valid` is false for the sentinel and for no other id |
| `StoragePage.IsValid` | src/storage/page/page.rs:15-17 | `is_valid` holds exactly for the ids strictly below `usize::MAX` |
| `StoragePage.Offset` | src/storage/page/page.rs:19-21 | with a positive page size, the offset is a multiple of the page size, and dividing it by the page size gives back the id |
| `StoragePage.OffsetOfPage42` | src/storage/page/page.rs:43-48 | the unit test: id 42 is stored as 42, and with 4096-byte pages its offset is 42 * 4096 |
| `StoragePage.OffsetOfNextPage` | src/storage/page/page.rs:19-21 | `offset` lays pages end to end: page `id + 1` starts `page_size` bytes after page `id` |
| `StoragePage.OffsetInjective` | src/storage/page/page.rs:19-21 | with a positive page size, two ids have the same offset if and only if they are equal |
| `StoragePage.OffsetMonotone` | src/storage/page/page.rs:19-21 | with a positive page size, one id orders before another if and only if its offset is smaller |
| `StoragePage.Compare` | src/storage/page/page.rs:3-4 | the derived `Eq`/`Ord` on `PageId`: equal exactly when the ids are equal, and less or greater exactly as the wrapped integers are |
| `StoragePage.CompareIsTotalOrder` | src/storage/page/page.rs:3-4 | the derived order is antisymmetric and transitive |
| `StoragePage.NewPage` | src/storage/page/page.rs:30-35 | `Page::new(n)` has a buffer of exactly `n` bytes, every byte zero, and holds the invalid id |
| `Bytes.Zeros` | src/storage/page/page.rs:33 | `vec![0; n]` has length `n`, and every element is zero |
| `StorageDisk.NewPageId` | src/storage/disk.rs:12-14 | `PageId::new(id)` keeps `id` unchanged |
| `StorageDisk.Offset` | src/storage/disk.rs:16-18 | with a positive page size, the offset is a multiple of the page size, and dividing it by the page size gives back the id |
| `StorageDisk.OffsetInjective` | src/storage/disk.rs:16-18 | with a positive page size, two ids have the same offset if and only if they are equal |
| `StorageDisk.OffsetOfPage42` | src/storage/disk.rs:85-91 | the unit test: id 42 is stored as 42, and with 4096-byte pages its offset is 42 * 4096 |
| `StorageDisk.ReadAt` | src/storage/disk.rs:60-61 | seek then `read_exact` of `n` bytes succeeds if and only if `n` is 0 or the range lies inside the file; on success it yields exactly the file's `n` bytes at the offset; otherwise it fails with an unexpected end of file |
| `StorageDisk.WriteAt` | src/storage/disk.rs:71-72 | seek then `write_all`: the written range holds the data; the new length is the larger of the old length and the end of the write (an empty write changes nothing); every other byte is the old byte, or zero in a gap past the old end |
| `StorageDisk.ReadAfterWrite` | src/storage/disk.rs:55-75 | reading at the offset just written, with a buffer of the same length, succeeds and yields the written data |
| `StorageDisk.WriteLeavesOtherPages` | src/storage/disk.rs:66-75 | writing one whole page `j` leaves every byte of any other page `i` that was already in the file unchanged |
| `StorageDisk.ReadOtherPageAfterWrite` | src/storage/disk.rs:122-130 | if page `i` could be read before page `j != i` is overwritten with a whole page, it reads back the same afterwards |
| `StorageDisk.StoresAfterOverwrite` | src/storage/disk.rs:122-130 | if every page reads back as its last data, that stays true after overwriting one of them, with the new data for that page |
| `StorageDisk.StoresAfterAppend` | src/storage/disk.rs:107-112 | if pages `0..n` read back as their data, then after writing page `n` pages `0..n+1` do |
| `StorageDisk.BasicDiskManager.constructor` | src/storage/disk.rs:39-44 | a manager created on a new path has an empty file, and `page_size()` is its `PAGE_SIZE` parameter |
| `StorageDisk.BasicDiskManager.LimeBase` | src/storage/disk.rs:94-98 | `LimeBaseDiskManager`'s `page_size()` is `DEFAULT_PAGE_SIZE`, that is 8192, and its new file is empty |
| `StorageDisk.BasicDiskManager.PageSize` | src/storage/disk.rs:51-53 | `page_size()` returns the manager's const parameter `PAGE_SIZE` |
| `StorageDisk.BasicDiskManager.ReadPage` | src/storage/disk.rs:55-64 | `read_page` reads at the same offset `id * PAGE_SIZE` as `write_page`. It succeeds exactly when `ReadAt` does, and the caller's buffer then holds the file's bytes. Otherwise it returns the read error. It never changes the file |
| `StorageDisk.BasicDiskManager.WritePage` | src/storage/disk.rs:66-75 | `write_page` computes `id * PAGE_SIZE` inline, and the new file is `WriteAt` of the old file at that offset |
| `StorageDisk.ReadWriteScenario` | src/storage/disk.rs:100-131 | the read/write unit test, with its random choices as parameters: after writing pages `0..n`, every read in the loop succeeds and returns the latest data for its page; the returned data is `Latest(pages, steps)`, and at the end every page reads back as that data |
| `StorageDisk.Latest` | src/storage/disk.rs:122-130 | the test's expected data after its steps: replacements never change the number of pages |
| `StorageDisk.AppendWrite` | src/storage/disk.rs:36-37 | through a file opened with `append(true)`, a write leaves the old bytes as a prefix and puts the data at the end |
| `StorageDisk.AppendWriteMissesPage` | src/storage/disk.rs:36-37 | on a reopened file, writing a range already inside the file leaves that range as it was |
| `StorageDisk.ReopenedWriteIsLost` | src/storage/disk.rs:36-37 | a concrete case: on a reopened two-page file, page 0 written as all ones still reads back as zeros |

## Left out

- The buffer pool manager (`src/buffer/buffer_pool_manager.rs`). It is a trait of method signatures without bodies, so there is no algorithm to model.
- `src/lib.rs` only declares modules and re-exports. Its `page_guard` module is not part of this model.
- `BasicDiskManager::new` on a path that already exists is not modelled in the class. The existence check and the `OpenOptions` calls are file-system I/O. The class only models the new-file branch, which starts from an empty file. The append-mode behaviour of a reopened file is modelled separately, as `AppendWrite` (see Findings).
- Dropping and reopening the manager, which the read/write test does at its end, is not modelled, for the same reason.
- `RwLock` acquisition and its poisoned-lock error (src/storage/disk.rs:57-59 and 68-70) are concurrency concerns and are not modelled.
- Errors from the operating system (seek, read and write failures, disk full, file-size limits) are not modelled. The file is unbounded. The one read failure modelled is running into the end of the file. Because of this, `WritePage` always succeeds and returns nothing.
- `StoragePage.Offset`, `StorageDisk.Offset`, `StorageDisk.BasicDiskManager.ReadPage` and `StorageDisk.BasicDiskManager.WritePage` require that `id * page_size` fits in the integer type. The Rust multiplication is unchecked: it panics in debug builds and wraps around in release builds. The wrap-around is not modelled.
- `StorageDisk.BasicDiskManager.ReadPage` says nothing about the caller's buffer when the read fails. `read_exact` leaves the buffer's contents unspecified in that case.
- The width of `usize` is fixed once, as `StoragePage.UsizeMax` (64 bits). No property depends on that width except the concrete example lemmas.
- The disk layer's `PageId` also derives `Eq` and `Ord`. Only the page layer's derived order is stated (`StoragePage.Compare`). The two are the same construction.
- The random data and the random page choices of the read/write test become parameters of `ReadWriteScenario`. The temporary directory is not modelled.

## Findings

| source | as written | input that shows it | evidently intended | confidence | as-written member | corrected member |
|---|---|---|---|---|---|---|
| src/storage/disk.rs:36-37 | An existing file is opened with `read(true).append(true)`. With append mode, the OS sends every write to the end of the file and ignores the `seek` in `write_page`. | Reopen a file that holds two zero-filled 8192-byte pages. Call `write_page(PageId::new(0), [1; 8192])`, then `read_page(PageId::new(0), ..)`. The read returns zeros, and the ones sit at bytes 16384..24576. | `write_page` writes at `id * PAGE_SIZE` on a reopened file too, as it does on a new file (opened with `write(true)`). | high for the operating-system semantics of append mode; not executed | `StorageDisk.ReopenedWriteIsLost` | `StorageDisk.ReadAfterWrite` |
