# CelebA helpers of `utils.py`, modelled in Dafny

This project models the helper layer of a GAN training repository: the
functions in `utils.py` that lay out and save image grids, crop and colour
images, pick GIF frames, and download and organise the CelebA dataset. The
behaviour is stated on values and on an in-memory filesystem, and properties
of it are proved.

* **Paths** (`paths.dfy`): POSIX Python 2 path strings. It covers
  `str.split('/')`, `'/'.join`, `os.path.join` and lexical `os.path.abspath`
  against a working directory. It also covers `os.path.relpath`, with the
  property that walking a relative link from its directory reaches its target.
* **Posix** (`posix.dfy`): the filesystem as a map from resolved component
  lists to directories, files and symbolic links.
  * It models `mkdir`, `makedirs` (recursing on the parent as Python 2 does),
    `mkdir_p`, `symlink`, `open(.., 'wb')`, `remove`, `rename`, reading a
    file and archive extraction.
  * Each call returns the new tree and an optional `errno`.
  * A well-formedness invariant is proved to be kept by every call except
    archive extraction: each entry sits in an existing directory.
* **Fs** (`fs.dfy`): class `FileSystem`, the same calls as methods that
  update the tree in place. It also holds `os.path.exists` and
  `os.path.isdir`.
* **Images**, **Tiling** (`images.dfy`, `tiling.dfy`): `merge` and `imsave`.
  Images are pasted onto a zero canvas (an `array3<int>`). The block of
  image `idx` is at row `idx / size[0]` and column `idx % size[1]`. numpy
  raises when a block falls below the canvas and the image has two or more
  rows, or when the channel count is not 1 or 3.
* **Crop** (`crop.dfy`): the window `center_crop` cuts before resizing.
* **Colorize** (`colorize.dfy`): `colorize` on rank-2 and rank-3 images.
* **Gif** (`gif.dfy`): the frame choice of `make_frame` in `make_gif`.
* **Decimal** (`decimal.dfy`): `"{:06d}".format` and `int()` on decimal text.
* **Splits** (`splits.dfy`): `check_link` and `add_splits`. They cover the
  train/valid/test partition, the split directories and the relative
  symbolic links, with what they leave behind.
* **Download** (`download.dfy`): `get_confirm_token`, `save_response_content`,
  `download_file_from_google_drive` and `download_celeb_a`. The HTTP session
  is a function parameter `server`. A response may break part-way through its
  body. Zip decoding is a function parameter `unzip`, which gives the members
  `extractall` writes and whether it got through all of them.
  * Each step of `download_celeb_a` is a function on the tree: `FetchResult`,
    `ExtractResult`, `MoveResult`, `FinishResult`, `InstallResult` and
    `CelebAResult`.
  * Each method is proved to update the tree exactly as its function says.
  * Lemmas state what each path through the call does.
* **Saving** (`saving.dfy`): `save_images`, which creates the directory part of
  the target and then calls `imsave`.

`center_crop` honours a given `crop_w` and overrides only `crop_h`
(utils.py:74-80). The model follows that code.

`download_celeb_a` fills `<base>/celeba/images`, but `add_splits` reads
`<base>/CelebA/images` (utils.py:288-289, 313-314). The model keeps the two
names distinct, as a case-sensitive filesystem does. `Download.SplitsReadOtherDirectory`
states that the two directories differ.

## Model

| member | source | states |
|---|---|---|
| Paths.Split | utils.py:36 | `s.split('/')`: the pieces between the slashes, never fewer than one |
| Paths.Join | utils.py:288-289 | `os.path.join(a, b)`: `b` when it is absolute; otherwise `a` then `b`, with a '/' between them unless `a` is empty or already ends in '/' |
| Paths.Abs | utils.py:285 | `os.path.abspath` done lexically: the components of `s`, walked from the root or the working directory; `.` and empty parts are skipped, `..` drops a component and stops at the root |
| Paths.RelPath | utils.py:375 | `os.path.relpath(path, start)`: a `..` for each component of `start` past the common prefix, then the rest of `path`; `.` when they are equal; `None` (Python's `ValueError`) for an empty `path` |
| Paths.ParentDirIsPrefixBeforeLastSlash | utils.py:36 | the directory part `'/'.join(p.split('/')[:-1])` is empty when `p` has no '/', else exactly the text before the last '/' |
| Paths.JoinSplit | utils.py:36 | `'/'.join(s.split('/')) == s` for every string |
| Paths.SplitJoin | utils.py:36 | splitting a '/'-join of separator-free pieces gives the pieces back |
| Paths.AbsJoin | utils.py:288-289 | `abspath(join(a, b)) == abspath(a) + [b]` for a plain name `b` |
| Paths.AbsIsPlain | utils.py:372 | a path resolved against a plain working directory has only plain components |
| Paths.RelPartsArePlainOrUp | utils.py:375 | every component of `relpath(path, start)` is `..` or a plain name |
| Paths.RelPathResolves | utils.py:375 | `relpath` of a non-empty path is defined, and walking it from `start` arrives at `path` |
| Paths.CommonPrefix | utils.py:375 | the result is the length of the longest common prefix: the lists agree up to it and differ just after it |
| Posix.Mkdir | utils.py:286 | `mkdir` adds a directory exactly when `CreateError` allows it, and otherwise leaves the tree as it was |
| Posix.Makedirs | utils.py:276 | `makedirs` of Python 2: create the missing parent first, then the path itself; `EEXIST` when the path is present |
| Posix.MkdirP | utils.py:273-281 | `mkdir_p`: `makedirs`, with `EEXIST` swallowed when `os.path.isdir` holds of the path, that is for a directory or a link to one |
| Posix.IsDirFollowing | utils.py:278 | `os.path.isdir(p)`: holds of every directory; when it holds, `p` is present, and if `p` is not itself a directory it is a symbolic link whose target, read from the link's directory, is a directory |
| Posix.Symlink | utils.py:376 | `symlink` adds a link holding the target text exactly when `CreateError` allows it, and otherwise leaves the tree as it was |
| Posix.Rename | utils.py:307 | `rename`: `EINVAL` for the root; `ENOENT` or `ENOTDIR` for a missing source, as its lookup fails; `EINVAL` for a move into its own subtree; then the creation checks on the destination; on success the subtree is moved |
| Posix.Extracted | utils.py:303-304 | every decoded member is written at its place below the directory, replacing what was there; every other entry of the result is an entry of the old tree, unchanged |
| Posix.LookupError | utils.py:308 | the `errno` of a failed lookup: `ENOTDIR` when the parent is present but not a directory, `ENOENT` when it is a directory, and otherwise that of the parent |
| Posix.CreateError | utils.py:286 | creating `p` succeeds iff `p` is absent and its parent is a directory; `EEXIST` iff `p` is present; `ENOTDIR` when the parent is present but not a directory |
| Posix.MakedirsAddsOnlyPathDirs | utils.py:276 | `makedirs(p)` keeps every entry; each new entry is a directory on the way to `p`; on success `p` was absent and is now a directory; an absent `p` never gives `EEXIST` |
| Posix.MakedirsOnExisting | utils.py:273-281 | on a well-formed tree, `makedirs` of a present path fails with `EEXIST` and changes nothing; `mkdir_p` of an existing directory or of a link to one is a silent no-op, and of any other existing entry raises `EEXIST` |
| Posix.MkdirPIdempotent | utils.py:273-281 | after a successful `mkdir_p(p)`, `os.path.isdir(p)` holds (and `p` is itself a directory unless it was a link) and a second call succeeds without changing anything |
| Posix.MakedirsKeepsWellFormed | utils.py:276 | `makedirs` and `mkdir_p` keep a well-formed tree well formed |
| Posix.EntryCallsKeepWellFormed | utils.py:286 | `mkdir`, `symlink`, `open(.., 'wb')` and `remove` keep a well-formed tree well formed |
| Posix.OpenForWrite | utils.py:364 | on success the file is present and empty; on failure the tree is unchanged; `EISDIR` iff the path is a directory |
| Posix.Remove | utils.py:308 | succeeds iff the path is a non-directory entry, and then removes exactly that entry; otherwise nothing changes; `EISDIR` iff the path is a directory; a missing path whose parent is present gives `ENOENT` when the parent is a directory and `ENOTDIR` when it is not |
| Posix.RenameMovesSubtree | utils.py:307 | rename succeeds iff `src` exists, is not an ancestor of `dst`, `dst` is absent and its parent is a directory; every entry under `src` reappears at the same place under `dst`; any entry of the result under `src` is also under `dst`; everything outside both is kept |
| Posix.RenameKeepsWellFormed | utils.py:307 | `rename` keeps a well-formed tree well formed |
| Posix.Read | utils.py:303 | reading a file gives its bytes; a successful read names a non-directory entry |
| Fs.FileSystem.Mkdir | utils.py:286 | `os.mkdir` updates the tree as `Posix.Mkdir` on the resolved path; `''` fails with `ENOENT` |
| Fs.FileSystem.MakedirsAt | utils.py:276 | the recursive `makedirs` on a resolved path updates the tree exactly as `Posix.Makedirs` |
| Fs.FileSystem.Makedirs | utils.py:38 | `os.makedirs(s)`; `''` fails with `ENOENT` and changes nothing |
| Fs.FileSystem.Exists | utils.py:37 | `os.path.exists(s)`: false for `''`; true for the working directory and for every entry at the resolved path, a dangling symbolic link included (links are not followed) |
| Fs.FileSystem.IsDir | utils.py:278 | `os.path.isdir(s)`, the test `Fs.FileSystem.MkdirP` makes after `EEXIST`: implies `Exists(s)`, holds of every directory, and otherwise only of a symbolic link to a directory |
| Fs.FileSystem.MkdirP | utils.py:273-281 | `mkdir_p(s)` updates the tree as `Posix.MkdirP` on the resolved path |
| Fs.FileSystem.Symlink | utils.py:376 | `os.symlink` updates the tree as `Posix.Symlink` on the resolved path |
| Fs.FileSystem.OpenForWrite | utils.py:364 | `open(s, 'wb')` updates the tree as `Posix.OpenForWrite` |
| Fs.FileSystem.Append | utils.py:368 | `f.write(chunk)` appends the chunk to the file's bytes and changes nothing else |
| Fs.FileSystem.Remove | utils.py:308 | `os.remove` updates the tree as `Posix.Remove` |
| Fs.FileSystem.Rename | utils.py:307 | `os.rename` updates the tree as `Posix.Rename` on both resolved paths |
| Fs.FileSystem.ReadFile | utils.py:303 | reading the archive gives `Posix.Read` of the resolved path |
| Fs.FileSystem.ExtractAll | utils.py:303-304 | `extractall(dir)` updates the tree as `Posix.Extracted` on the resolved directory: each member written is at its place below it |
| Tiling.MergeOk | utils.py:53-63 | `merge` completes when no image is used, or when the channel count is 1 or 3 and each used block lies on the canvas or the images have at most one row |
| Tiling.Pasted | utils.py:58-61 | a canvas value after the first `k` images: that of image `k-1` where its block covers the position, else the value before; 0 at the start |
| Tiling.Used | utils.py:56 | `images[:rows*cols]` keeps `min(n, rows*cols)` images |
| Tiling.PasteBlock | utils.py:61 | the slice assignment copies the image into its block and leaves every other position unchanged |
| Tiling.PasteImage | utils.py:58-61 | one loop pass: the canvas goes from the first `idx` images pasted to the first `idx+1` |
| Tiling.PasteInside | utils.py:61 | the pass for a block that lies on the canvas |
| Tiling.PastedBelowCanvas | utils.py:61 | a block whose row is below the canvas writes nothing (numpy's empty slice) |
| Tiling.Merge | utils.py:53-63 | a fresh `h*rows x w*cols x 3` canvas; success iff numpy does not raise; on success every position holds the pasted images in index order |
| Tiling.PastedIsLastCover | utils.py:58-61 | each canvas position holds the pixel of the last image whose block covers it, and 0 where none does |
| Tiling.SquareGridIsRowMajor | utils.py:58-61 | on a square grid, image `r*n + c` appears unchanged at block `(r, c)`, and unused blocks are 0 |
| Tiling.TallGridFits | utils.py:59-61 | when `cols <= rows` no block leaves the canvas, so `merge` fails only on the channel count |
| Tiling.WideGridOverflows | utils.py:59-61 | a full grid with `rows < cols` and images of two or more rows makes `merge` raise |
| Tiling.TallGridOverwritesFirstBlock | utils.py:59-61 | with `cols < rows`, image `cols` lands on image 0's block and the top-left pixel comes from a later image |
| Tiling.RepeatChannelsShape | utils.py:68 | `np.repeat(images, 3, axis=3)` triples the channel axis and keeps the rest of the shape |
| Tiling.RepeatIsBroadcast | utils.py:67-68 | repeating one channel three times gives the same canvas as broadcasting it |
| Tiling.Imsave | utils.py:66-69 | the canvas handed to the writer is the merge of the batch as given; success iff `merge` succeeds |
| Crop.HalfRounded | utils.py:79-80 | `round(d / 2.)` of Python 2: halves round away from zero |
| Crop.CenterCrop | utils.py:72-82 | the window is `min(h, w)` high; the slice asks for `crop_w` columns when it is given, else `min(h, w)`; with no `crop_w` it is inside the image, flush with its shorter side and centred to within one pixel |
| Crop.CropHeightIgnored | utils.py:74 | the `crop_h` argument does not affect the window |
| Colorize.Colorize | utils.py:264-270 | the result is 3-D with the same height and width; a 2-D image becomes three equal channels; a 4-channel image keeps its first three; any other image is unchanged |
| Colorize.ColorizeIdempotent | utils.py:264-270 | the result never has 4 channels, so colorizing twice equals colorizing once |
| Gif.FrameSource | utils.py:164-167 | index `k` shows image `k` when it exists and the last image otherwise; with no images Python raises |
| Gif.PickFrame | utils.py:164-167 | the frame is one of the images, picked as `FrameSource` says; `None` iff there are no images |
| Gif.FrameSourceMonotone | utils.py:164-167 | a later frame index never shows an earlier image |
| Gif.FrameSourceLast | utils.py:164-167 | the last image is shown exactly from index `n - 1` on |
| Decimal.ZeroPaddedRoundTrip | utils.py:331 | the zero-padded text is all digits and parses back to the number |
| Decimal.ZeroPaddedInjective | utils.py:331 | distinct numbers get distinct padded text |
| Decimal.ZeroPaddedLength | utils.py:331 | below `10^width` the padded text is exactly `width` characters |
| Decimal.ZeroPadded | utils.py:331 | `"{:06d}".format(n)` with width 6: its properties are the three `Decimal.ZeroPadded*` lemmas above (all digits, parses back to `n`, injective, exactly `width` characters below `10^width`) |
| Decimal.ParseInt | utils.py:363 | `int(s)` is defined iff `s` is digits with an optional sign |
| Decimal.ParseIntOfString | utils.py:363 | `int(str(n)) == n` for every integer |
| Download.GetConfirmToken | utils.py:355-359 | `None` iff no cookie name starts with `download_warning`; otherwise the value of the first such cookie |
| Download.IsWarning | utils.py:357 | `key.startswith('download_warning')`: holds iff the cookie's name is `download_warning` followed by any text |
| Download.TotalSizeReadsLength | utils.py:363 | a missing `content-length` counts as 0, and a decimal length is read back exactly |
| Download.TotalSize | utils.py:363 | `int(headers.get('content-length', 0))`: 0 when the header is missing, `None` where `int()` raises |
| Download.NonEmpty | utils.py:367 | the written chunks are all non-empty and all received; every non-empty chunk received is among them; there are no more of them than chunks received |
| Download.ConcatNonEmpty | utils.py:365-368 | skipping keep-alive (empty) chunks loses no bytes |
| Download.WriteChunks | utils.py:365-368 | the loop writes exactly the non-empty chunks, and the file ends up holding the whole body |
| Download.WriteChunk | utils.py:367-368 | one pass writes the chunk iff it is non-empty |
| Download.SaveResult | utils.py:362-368 | `save_response_content` on a tree: a bad length raises first; a failed `open` changes nothing; otherwise the file holds the chunks received, and a broken stream raises after them |
| Download.SaveResultFacts | utils.py:362-368 | a bad length changes nothing; success, or a break after the open, leaves the file holding the non-empty chunks' bytes, and success holds exactly when the stream did not break; any other failure changes nothing |
| Download.SaveResponseContent | utils.py:362-368 | updates the tree as `SaveResult` says; the writes are the non-empty chunks once the file is open, and none otherwise |
| Download.DriveExchange | utils.py:341-352 | the first request carries only the id; a second request, with `confirm` = the token, is sent iff the first response carries a non-empty token; the saved response is the last one |
| Download.DownloadFileFromGoogleDrive | utils.py:341-352 | the requests sent are those of `DriveExchange`; a request that gets no response changes nothing; otherwise the last response is saved to `destination` as `SaveResult` says, so a stream that breaks leaves the bytes received |
| Download.SplitsReadOtherDirectory | utils.py:288-289 | the images directory `download_celeb_a` fills differs from the one `add_splits` reads |
| Download.AddSplitsKeepsDownloadState | utils.py:308-309 | `add_splits` neither restores the deleted archive nor removes the images directory |
| Download.Keys | utils.py:288-307 | the archive, data, extracted and images paths resolve to `<base>/img_align_celeba.zip`, `<base>/celeba`, `<base>/img_align_celeba` and `<base>/celeba/images` |
| Download.FetchResult | utils.py:285-300 | create `base` when missing; stop when `<base>/celeba` exists; keep an existing archive; otherwise run the Drive exchange and save its response to the archive |
| Download.ExtractResult | utils.py:302-304 | read the archive (a failure raises and changes nothing) and write the members `unzip` gives below its directory; an incomplete decoding raises after writing them |
| Download.MoveResult | utils.py:305-307 | create `<base>/celeba` when missing, then rename `<base>/img_align_celeba` to `<base>/celeba/images` |
| Download.FinishResult | utils.py:305-309 | the move, then `os.remove` of the archive, then `add_splits`, stopping at the first error |
| Download.InstallResult | utils.py:302-309 | extraction, then `FinishResult` unless extraction raised |
| Download.CelebAResult | utils.py:284-309 | `FetchResult`, then `InstallResult` unless the first half ended the call; the requests are those of the first half |
| Download.FetchSkipsExactlyWhenDataPresent | utils.py:285-292 | a skip means the data directory exists and nothing was sent; with `base` present, the call skips iff the data directory exists; an existing data directory ends the call with no request and at most `base` created; on a well-formed tree it changes nothing |
| Download.FetchRequests | utils.py:284-300 | the first half never reports `Done`; its requests are none or exactly the Drive exchange; none when the archive exists |
| Download.FetchKeepsExistingArchive | utils.py:297-298 | with `base` present, no data directory and an existing archive, the first half sends nothing, changes nothing and goes on |
| Download.FetchDownloadsMissingArchive | utils.py:297-300 | with the archive missing, the requests are the Drive exchange; the call goes on iff a response came, its length parses and its stream did not break; the archive then holds the non-empty chunks' bytes |
| Download.BrokenDownloadLeavesArchive | utils.py:362-368 | a stream that breaks after the length parsed fails the call and leaves the archive holding the chunks received |
| Download.TruncatedArchiveIsNotFetchedAgain | utils.py:297-300 | after a broken download the truncated archive exists, and the next call sends nothing and goes on to extract it |
| Download.ExtractArchiveFacts | utils.py:302-304 | extraction goes on iff the archive reads and decodes completely; a failed read changes nothing; otherwise every decoded member, all of them or those before the error, is at its place below the archive's directory |
| Download.MoveImagesMovesSubtree | utils.py:305-307 | a successful move carries every entry below `<base>/img_align_celeba` to its place below `<base>/celeba/images` and leaves nothing below the old name; a failure leaves at most `<base>/celeba` created |
| Download.RenameAfterMkdir | utils.py:305-307 | the rename after the `mkdir` step moves the whole extracted subtree, which the `mkdir` did not touch |
| Download.FinishDoneFacts | utils.py:305-309 | a finished install has deleted the archive and holds every extracted entry at its place below `<base>/celeba/images` |
| Download.InstallDoneFacts | utils.py:302-309 | a finished install went through extraction and then satisfies `FinishDoneFacts` for the extracted tree |
| Download.DownloadRequests | utils.py:284-309 | the only requests ever sent are those of the Drive exchange, and none when the archive exists |
| Download.DownloadExtractsExistingArchive | utils.py:297-309 | with `base` present, no data directory and an existing archive, the call installs that archive with no request |
| Download.DownloadDoneFacts | utils.py:284-309 | a finished download leaves no archive and leaves `<base>/celeba/images` in place |
| Download.DownloadSkipsWhenDataPresent | utils.py:285-292 | on a well-formed tree an existing `<base>/celeba` ends the call as a skip that sends nothing and changes nothing |
| Download.FetchArchive | utils.py:285-300 | updates the tree, outcome and requests as `FetchResult` says |
| Download.ExtractArchive | utils.py:302-304 | updates the tree and outcome as `ExtractResult` says |
| Download.MoveImages | utils.py:305-307 | updates the tree and error as `MoveResult` says |
| Download.FinishInstall | utils.py:305-309 | updates the tree and outcome as `FinishResult` says |
| Download.InstallArchive | utils.py:302-309 | updates the tree and outcome as `InstallResult` says |
| Download.DownloadCelebA | utils.py:284-309 | updates the tree, outcome and requests as `CelebAResult` says |
| Splits.SplitOf | utils.py:326-338 | the split of example `i`: train below 162770, valid below 182637, test from there on |
| Splits.Basename | utils.py:331 | `"{:06d}.jpg".format(i + 1)` |
| Splits.CheckLinkResult | utils.py:371-376 | `check_link` on a tree: nothing when `in_dir/basename` is absent; otherwise a link at `out_dir/basename` holding `relpath(in_file, out_dir)`, or the error `symlink` raises |
| Splits.LinkRange | utils.py:330-338 | one `for i in range(lo, hi)` loop of `check_link`, stopping at the first error |
| Splits.AddSplitsResult | utils.py:312-338 | `add_splits` on a tree: the three split directories, then the three link loops, stopping at the first error |
| Splits.LoopsPartitionExamples | utils.py:326-338 | each example index below 202599 is in exactly one of the three loop ranges, the one its split gives |
| Splits.BasenameFacts | utils.py:331 | each basename is a plain path component, 10 characters long for every index below 202599, and distinct examples get distinct basenames |
| Splits.CheckLink | utils.py:371-376 | `check_link` updates the tree as `CheckLinkResult` says |
| Splits.CheckLinkFacts | utils.py:371-376 | one call adds at most the link of its example, and only for a present image; on success that link resolves to the image |
| Splits.LinkRangeStops | utils.py:330-332 | once a `check_link` raises, the loop is over: later indices change nothing |
| Splits.LinkLoop | utils.py:330-338 | the loop updates the tree as `LinkRange` says |
| Splits.EnsureDirMethod | utils.py:318-323 | `if not exists: makedirs` updates the tree as `EnsureDir` says |
| Splits.MakeSplitDirsMethod | utils.py:315-323 | the three directory steps, in order, stopping at the first error |
| Splits.LinkSplitsMethod | utils.py:330-338 | the three link loops, in order, stopping at the first error |
| Splits.AddSplits | utils.py:312-338 | `add_splits` updates the tree as `AddSplitsResult` says |
| Splits.Resolved | utils.py:313-317 | the paths `add_splits` builds resolve to `<d>/splits/<split>`, `<d>/images/<name>` and `<d>/splits/<split>/<name>` |
| Splits.MakeSplitDirsGood | utils.py:318-323 | creating the split directories keeps every entry and only adds entries on the way to or inside `<d>/splits`; a new entry at a link's place is for a present image of that split's range |
| Splits.LinkRangeFacts | utils.py:330-332 | one loop adds only links of its own range for present images; on success every present image of the range has a link resolving to it |
| Splits.LinkSplitsGood | utils.py:330-338 | the three loops together add only sound links under `splits`; on success each range is complete |
| Splits.AddSplitsLinks | utils.py:312-338 | `add_splits` only grows `<d>/splits`; each new link is for a present image with index below 202599, in that image's own split; on success every present image has a link that resolves to it |
| Splits.AddSplitsComplete | utils.py:312-338 | after a successful `add_splits`, every present image among the 202599 has a link in its own split that resolves to it |
| Splits.OwnSplitOnly | utils.py:330-338 | a sound new link `(s, i)` has `i < 202599` and `s` equal to the split of `i` |
| Splits.CheckLinkFailsOnExistingLink | utils.py:371-376 | `check_link` on a present image whose link exists raises `EEXIST` and changes nothing |
| Splits.LinkRangeExtends | utils.py:330-338 | a link loop only adds entries |
| Splits.LinkRangeLastFails | utils.py:330-338 | the loop up to and including a present, already linked image raises |
| Splits.LinkRangeFailsOnExistingLink | utils.py:330-338 | a loop whose range holds a present, already linked image raises |
| Splits.LinkSplitsFailsOnExistingLink | utils.py:330-338 | the link loops raise when the split of a present, already linked image is among them |
| Splits.AddSplitsFailsWhenLinked | utils.py:312-338 | `add_splits` raises when a present image below 202599 is already linked, so after a successful run that leaves a present image, a second run raises |
| Splits.AddSplitsKeepsWellFormed | utils.py:312-338 | `add_splits` keeps a well-formed tree well formed, whether it succeeds or not |
| Saving.PrepareDir | utils.py:36-38 | the directory step of `save_images`: `''` raises `ENOENT`; an existing directory part is kept; otherwise `os.makedirs` of it |
| Saving.PrepareDirFixed | utils.py:36-38 | the corrected step: an empty directory part is the current directory and needs nothing; otherwise as written |
| Saving.PrepareDirMakesDirectory | utils.py:36-38 | when the directory step succeeds, the directory part is non-empty and exists; nothing existing is changed |
| Saving.FileNameAloneFails | utils.py:36-38 | for `"name"` and `"/name"` the directory step fails with `ENOENT` whatever the filesystem holds |
| Saving.PrepareDirFixedSaves | utils.py:36-38 | the corrected step never fails for a bare file name and otherwise behaves as written |
| Saving.SaveImages | utils.py:35-39 | the directory step is applied to the filesystem; after it succeeds, the canvas is `imsave`'s merge of the batch |

## Left out

- Image file I/O: `imread`, `scipy.misc.imsave`'s encoding and `imresize` are not modelled. `get_image` and `merge_images` are only wrappers over them.
- `transform` and `inverse_transform` compute in floating point, as do the `uint8` casts in `make_gif`. Pixels are modelled as integers.
- `to_json`, `visualize`, `np.seterr`, the `index` global, `pp` and `get_stddev` are not part of this model. They are TensorFlow, printing and logging code.
- The HTTP session is a function parameter, and `tqdm`'s progress bar is not modelled. `requests` matches header names without regard to case; this model looks up `content-length` exactly.
- Decimal.ParseInt: Python 2's `int()` also accepts surrounding whitespace, which this model rejects.
- The zip format and `moviepy`'s video writing are not modelled. `make_gif` is modelled only through its frame choice.
- Posix.Read: a symbolic link is followed once, not through chains of links. `Fs.FileSystem.Exists` does not follow links at all, while `os.path.exists` does.
- Posix.MkdirP: like `os.path.isdir`, it follows a final symbolic link, but only once: a link to a link to a directory is not taken for a directory.
- Crop.CenterCrop: the window is the slice's arguments, as numbers. numpy reads a negative start from the end of the row and cuts a stop past the edge at the edge, so an explicit `crop_w` wider than the image gives another, narrower window: with `w = 10` and `crop_w = 14` the slice `x[:, -2:12]` holds only columns 8 and 9.
- Posix.Makedirs: it works on resolved paths. Python 2 also splits the string and recurses on a parent written with `..`. A parent that resolves to the path's own ancestor behaves the same here; textual differences (`a/../b`, `//`) are not modelled. The working directory is assumed to exist as a directory (`Fs.FileSystem.constructor` requires it): Python's `makedirs` of a relative name stops at an empty head and never looks at the working directory, while the model, on the resolved path, would create any missing component of it.
- Posix.Rename: renaming onto an existing entry is refused with `EEXIST`, where POSIX would replace a file or an empty directory. Renaming a path onto itself gives `EINVAL` here, where `os.rename(p, p)` succeeds and changes nothing.
- Posix.OpenForWrite: a symbolic link at the path is replaced by an empty file. The real `open(.., 'wb')` follows the link, truncating or creating its target, and fails with `EISDIR` for a link to a directory.
- Symbolic links in the middle of a path are not followed: paths are resolved lexically into tree keys, so no call reaches an entry through a linked directory.
- Fs.FileSystem.ExtractAll: whether extraction keeps the tree well formed is not proved, since the decoded entries are arbitrary. Filesystem errors while writing members are not modelled: a member overwrites whatever is at its place, and only a decoding error stops extraction.
- Tiling.Merge: negative grid sizes are not modelled. Sizes are natural numbers.
- Colorize.Colorize: arrays of rank other than 2 and 3 are not modelled.
- Saving.SaveImages: when the directory step fails, the returned canvas is an empty placeholder and carries no meaning. `inverse_transform`, a floating-point rescaling, is treated as the identity: the canvas is the merge of the batch as given.
- Download.ExtractResult: which members of a damaged archive are written before `BadZipfile` is left to the `unzip` parameter, as the zip format is not modelled.
- Concurrency and other processes changing the filesystem between calls are not modelled.

## Findings

| source | as written | input that shows it | evidently intended | confidence | as-written member | corrected member |
|---|---|---|---|---|---|---|
| utils.py:36-38 | the directory part of a path without '/' (or directly under '/') is `''`; `os.path.exists('')` is false, so `os.makedirs('')` runs and raises `ENOENT` before anything is saved | `save_images(images, size, "out.png")` or `"/out.png"` | an empty directory part means the current directory (or the root), which exists, so the image is saved | not executed | Saving.FileNameAloneFails | Saving.PrepareDirFixedSaves |
