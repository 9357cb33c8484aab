# imago dedup index: a verified Dafny model

imago stores images under names derived from their perceptual hash and
refuses to store near-duplicates. This project models the core of that
mechanism and proves properties of the model.

- **The fingerprint codec (imgdiff.go).**
  - A 64-bit difference hash is packed big-endian into 8 bytes, encoded with
    base16384, converted to UTF-8 and cut to its first 15 bytes. Those 15
    bytes are the image's *identifier*.
  - Decoding appends the fixed suffix `lastchar`, converts back to UTF-16BE,
    decodes and unpacks the first 8 bytes.
  - `HammDistance` is the number of differing bits of two decoded hashes.
- **The dedup index (storage.go).**
  - A map from the first 3 bytes of a name to the list of the remaining bytes.
  - The same map holds, under the reserved key `"sum"`, the flat list of every
    name in insertion order.
  - `Imgexsits`, `Addimage`, the directory rescan `Scanimgs`, the helper
    `namein`, and the random sampler `Pick`.
- **The save decision (storage.go, storage_native.go, storage_remote.go).**
  All three variants share one decision:
  - decode, then hash;
  - in force mode, an exact lookup; otherwise the first stored name within
    `samediff` bits;
  - then create, encode or copy.

  The variants differ in what they do to the index. `Saveimgbytes` never
  records a new image. `NativeStorage` records it after the write.
  `RemoteStorage` records it before an upload whose error it discards.

## Modules

- `Wrappers`: `Option` and `Result`.
- `GoText`: Go's byte strings, `strings.HasSuffix`, and `len([]rune(s))` by Go's
  UTF-8 decoding rules. A byte that does not start a well-formed sequence is
  one rune.
- `ImgDiff`: the codec.
  - The base16384 functions and the UTF conversions are a `Library` value
    given as a parameter.
  - 64-bit values are integers below 2^64.
  - XOR and population count are defined bit by bit.
- `Storage`: the index as class `Index` (field `images`).
  - The specification functions `Added`, `Accepted`, `Choose` and
    `FirstSimilar` describe it.
  - `Decide` is the save decision shared by every variant.
- `Native`, `Remote`: the two storage classes. Each holds its embedded index as
  `store`.
  - The embedded `storage` type is defined in a file that is not part of this
    model. Its `IsImgExsits` and `AddImage` are taken to behave as storage.go's
    `Imgexsits` and `Addimage` on the embedded map.

## Conventions

Foreign steps become parameters. An `Attempt` records:
- what the image codecs made of the bytes: image, webp image, or neither;
- the outcome of `goimagehash.DifferenceHash`;
- whether creating the file, encoding and copying succeeded.

Where Go would panic, the model has a precondition instead:
- `name[:3]` on a name shorter than 3 bytes;
- `[:15]` on a shorter text;
- `binary.BigEndian.Uint64` on fewer than 8 bytes.

`SaveDefined` and `ScanSafe` state exactly when a save or a similarity scan
stays clear of those panics.

The proofs pin down several behaviours of the code as written:
- A name whose first three bytes are `sum` puts its tail into the `"sum"` list
  (`SumKeyCollision`).
- Rescanning duplicates every entry (`RescanDuplicates`, for listings without
  `sum`-prefixed stems, and `AddTwiceRecordsTwice`).
- `Pick`'s rejection branch never ends once every name in `"sum"` is excluded.
  That needs duplicates in `"sum"` (`RejectionLivelock`,
  `LivelockReachable`).
- `Saveimgbytes` answers "success" again for an image it has already stored
  (`SaveTwiceGlobal`). After a native "success", a forced resave of the same
  image answers "exist" (`SaveThenForceSave`). In similarity mode the answer
  depends on the threshold. Take a later image whose save matched nothing
  before. If its hash lies within `samediff` of the stored one, it is "exist"
  with the stored name; otherwise it decides as before (`SimilarAfterSave`).
  A name earlier in `"sum"` that is also similar still wins, since the scan
  returns the first match. So with a negative `samediff`, even the same
  image is saved and recorded again.

## Model

| member | source | states |
|---|---|---|
| GoText.HasSuffix | storage.go:147 | `strings.HasSuffix(s, suffix)` holds exactly when s is some string followed by suffix |
| GoText.RuneWidth | storage.go:149 | the bytes one rune takes: 1 to 4 and never past the end; 1 for an ASCII or invalid lead byte; a longer rune starts with a valid lead byte and continues with continuation bytes |
| GoText.RuneCount | storage.go:149 | `len([]rune(s))`: one rune per well-formed UTF-8 sequence or stray byte, so the count lies between a quarter of the byte length and the byte length |
| GoText.AsciiRuneCount | storage.go:149 | in pure ASCII text the rune count equals the byte count |
| ImgDiff.FromBigEndianOf | imgdiff.go:34-35 | reading back the n big-endian bytes of any x below 256^n gives x |
| ImgDiff.BigEndianOf | imgdiff.go:17 | writing out the number read from n bytes gives those n bytes back |
| ImgDiff.Pack | imgdiff.go:34-35 | `PutUint64` writes 8 bytes whose big-endian reading is x |
| ImgDiff.Unpack | imgdiff.go:17 | `Uint64` reads the value whose 8-byte big-endian form is the first 8 bytes |
| ImgDiff.UnpackPack | imgdiff.go:34-35 | `Uint64(PutUint64(x)) == x` for every 64-bit x |
| ImgDiff.PackUnpack | imgdiff.go:17 | packing the hash read from a byte string gives back its first 8 bytes, so packing and unpacking are a bijection |
| ImgDiff.Identifier | imgdiff.go:38 | the identifier is 15 bytes long and a prefix of the encoded UTF-8 text |
| ImgDiff.GetDHashStr | imgdiff.go:31-41 | succeeds exactly when hashing succeeds, with exactly the first 15 bytes of the encoded text; a hashing error is passed on |
| ImgDiff.DecodeDHash | imgdiff.go:13-21 | the nil hash exactly when converting `name + lastchar` to UTF-16BE fails; otherwise the hash whose big-endian bytes are the first 8 decoded bytes |
| ImgDiff.Distance | imgdiff.go:27 | the bit distance of two 64-bit hashes is at most 64 and is 0 exactly when they are equal |
| ImgDiff.HammDistance | imgdiff.go:24-28 | an error exactly when either name fails to decode; otherwise at most 64, and 0 exactly when both names decode to the same hash |
| ImgDiff.HammDistanceSymmetric | imgdiff.go:24-28 | the distance of a and b equals that of b and a |
| ImgDiff.DHashRoundTrip | imgdiff.go:13-41 | if the library decodes a hash back (converting the identifier followed by `lastchar` to UTF-16BE and decoding it yields the eight packed bytes first), decoding its identifier gives the hash back |
| ImgDiff.DecodesBackSatisfiable | imgdiff.go:13-41 | that hypothesis can be met: a library that pads the eight bytes to fifteen and passes bytes through satisfies it for every hash |
| ImgDiff.IdentifierInjective | imgdiff.go:31-41 | under the same assumption, two hashes with equal identifiers are equal |
| ImgDiff.IdentifierDistance | imgdiff.go:24-41 | under the same assumption, the distance of two identifiers is the bit distance of their hashes |
| Storage.Added | storage.go:58-70 | `Addimage` changes only the prefix's bucket and `"sum"`: the prefix's bucket gains the tail, `"sum"` gains the name, and a `sum` prefix makes both land in `"sum"` |
| Storage.InIndexAfterAdd | storage.go:40-70 | after `Addimage(a)`, the names that exist are exactly the old ones, `a`, and any name `"sum" + a` |
| Storage.ExistsAfterAdd | storage.go:40-70 | after `Addimage(name)`, `Imgexsits(name)` holds |
| Storage.AddCounts | storage.go:67-69 | each `Addimage` adds exactly one more copy of the name to `"sum"` and one more copy of the tail to its bucket |
| Storage.AddTwiceRecordsTwice | storage.go:58-70 | `Addimage` is not idempotent: two calls record the name twice |
| Storage.StemOf | storage.go:147-149 | an accepted file name is the stem followed by `.webp`, and the stem has five runes |
| Storage.StemOfSpec | storage.go:147-149 | the filter accepts a name with a given stem exactly when the name is that stem plus `.webp` and the stem has five runes |
| Storage.Accepted | storage.go:144-154 | the scan adds at most one name per listed entry, and every added name has five runes |
| Storage.AcceptedNames | storage_remote.go:116-123 | the remote scan adds at most one name per listed name, and every added name has five runes |
| Storage.AddedAll | storage.go:150 | repeated `Addimage` loses no key, and every added name exists afterwards |
| Storage.AddedKeeps | storage.go:40-70 | `Addimage` removes no name: what existed still exists, and so does the added one |
| Storage.AcceptedConcat | storage.go:144-154 | the scan filter keeps listing order: filtering a concatenation concatenates the filtered parts |
| Storage.AcceptedMembers | storage.go:144-154 | a stem is added exactly when some non-directory entry is named stem + `.webp` with a five-rune stem |
| Storage.AddedAllConcat | storage.go:144-154 | adding a list of names is adding its first part, then its second |
| Storage.SumAfterAddAll | storage.go:69 | if no added name starts with `sum`, `"sum"` grows by exactly the added names, in order |
| Storage.RescanDuplicates | storage.go:139-156 | if no accepted stem starts with `sum`, scanning the same listing twice lists every accepted name twice in `"sum"` |
| Storage.SumStemAccepted | storage.go:147-149 | the file `sumab.webp` passes the name filter |
| Storage.SumKeyCollision | storage.go:59-69 | rebuilding from the single file `sumab.webp` makes `"sum"` hold the tail `ab` before the name `sumab` |
| Storage.AcceptedNamesMembers | storage_remote.go:116-123 | a stem is added from a listing of bare names exactly when stem + `.webp` is listed and the stem has five runes, in any visiting order |
| Storage.Rejection | storage.go:178-183 | rejection sampling returns a drawn name of `"sum"` that is not excluded, and runs out of draws exactly when every draw hits an excluded name |
| Storage.FirstNotIn | storage.go:184-191 | the linear scan returns a name of `"sum"` that is not excluded, or `""` exactly when every name is excluded |
| Storage.FirstNotInIsFirst | storage.go:184-191 | the linear scan's name is the first one that is not excluded |
| Storage.Choose | storage.go:170-192 | `Pick` returns `""` whenever `len(exclude) >= len(sum)`; any name it returns is in `"sum"` and not excluded; it returns `""` otherwise only if every name is excluded; it follows the rejection and linear branches by the integer quotient `ls/le` |
| Storage.PickByRejection | storage.go:178-183 | the redraw loop returns what rejection sampling over the draws returns |
| Storage.PickFirstFit | storage.go:184-191 | the scan loop returns the first name of `"sum"` that is not excluded, or `""` |
| Storage.RejectionLivelock | storage.go:178-183 | in the rejection branch with every name of `"sum"` excluded, no sequence of draws yields a name |
| Storage.LivelockReachable | storage.go:170-183 | `"sum"` holding one name eleven times, with that name excluded, is such a case |
| Storage.LengthTestIgnoresContents | storage.go:174-175 | two excluded names that are not in `"sum"` still make a two-name `"sum"` return `""` |
| Storage.Similar | storage.go:99-100 | a stored name counts as similar only if both names decode and `samediff` is not negative; a name that decodes to the same hash as dh is similar exactly when `samediff >= 0` |
| Storage.FirstSimilar | storage.go:98-104 | a similarity match is a stored name |
| Storage.FirstSimilarSpec | storage.go:98-104 | the match is at the first index whose name decodes and lies within `samediff`, and there is no match exactly when no index does |
| Storage.ScanSafeAppend | storage.go:98-104 | scanning one more name changes the answer only if nothing matched before, and then it is that name when it is similar |
| Storage.ScanSafeExtend | storage.go:98-104 | a scan that found nothing stays clear of panics when one more decodable name follows |
| Storage.FindSimilar | storage.go:98-104 | the scan loop over the snapshot of `"sum"` returns the first similar name |
| Storage.NameIn | storage.go:158-167 | `namein` is list membership |
| Storage.Match | storage.go:92-105 | in force mode, a match exactly when `Imgexsits(dh)`, and the match is `dh`; otherwise the first similar name in `"sum"` |
| Storage.Decide | storage.go:73-129 | "notanimg" exactly when decoding fails; "dherr" exactly when hashing fails; a match (an exact hit in force mode, else the first similar name) always answers "exist" with the matched name, before any file is created; "encerr" and "ioerr" exactly when nothing matched and the named step failed; "success" exactly when nothing matched and every step succeeded, with the identifier; every error carries `""` |
| Storage.ForcedResaveFindsItself | storage_native.go:55-95 | after a save that succeeded and was recorded, a forced save of the same image is "exist" with its own identifier |
| Storage.SimilarAfterSave | storage_native.go:60-95 | if both hashes decode back from their identifiers (`DecodesBack`) and x's identifier does not start with `sum`, then after x is recorded, a save of y that matched nothing before is "exist" with x's identifier exactly when the hashes are within `samediff`; otherwise it decides as before |
| Storage.Index.constructor | storage.go:22 | the index starts as an empty map |
| Storage.Index.Sum | storage.go:98 | `images["sum"]`: the stored list, or Go's nil slice when the key is absent |
| Storage.Index.Exists | storage.go:40-55 | `Imgexsits` is true exactly when the tail is in the bucket of the prefix, false when the bucket is absent, and reads only |
| Storage.Index.Add | storage.go:58-70 | the new map is `Added` of the old one |
| Storage.Index.ScanEntry | storage.go:145-153 | one entry adds its stem exactly when it is an accepted file, and otherwise changes nothing |
| Storage.Index.Scan | storage.go:139-156 | a listing error changes nothing; otherwise the index gains the accepted stems in listing order |
| Storage.Index.Pick | storage.go:170-192 | the result is `Choose` of `"sum"`, the exclusions and the draws |
| Storage.Index.SaveImgBytes | storage.go:73-129 | the result is `Decide` and the index is left unchanged, even on "success" |
| Storage.Index.SaveImg | storage.go:132-136 | the buffer is saved in similarity mode; no read error is reported |
| Storage.SaveTwiceGlobal | storage.go:73-129 | saving the same image twice through `Saveimgbytes` gives the same answer twice |
| Native.NativeStorage.constructor | storage_native.go:24-28 | a fresh, empty index |
| Native.NativeStorage.SaveImgBytes | storage_native.go:36-96 | the result is `Decide` on the old index; the index gains the identifier on "success" and is unchanged otherwise |
| Native.NativeStorage.SaveImg | storage_native.go:99-105 | a read failure is "ioerr" with the index unchanged; otherwise a save in similarity mode |
| Native.NativeStorage.ScanImgs | storage_native.go:108-125 | a listing error changes nothing; otherwise the index gains the accepted stems in listing order |
| Native.SaveThenForceSave | storage_native.go:55-95 | a "success" is followed, for a forced save of the same image, by "exist" with the same identifier |
| Remote.RemoteStorage.constructor | storage_remote.go:22-26 | a fresh, empty index |
| Remote.RemoteStorage.saveImg | storage_remote.go:40-99 | the result is `Decide` with file creation and the copy into the buffer always succeeding, so neither "ioerr" test is reachable; the index gains the identifier on "success" whatever the upload's outcome |
| Remote.RemoteStorage.SaveImgBytes | storage_remote.go:35-37 | the same as `saveImg` on the given bytes |
| Remote.RemoteStorage.SaveImg | storage_remote.go:102-108 | a read failure is "ioerr" with the index unchanged; otherwise `saveImg` in similarity mode |
| Remote.RemoteStorage.ScanName | storage_remote.go:117-122 | one listed name adds its stem exactly when it is accepted |
| Remote.RemoteStorage.ScanImgs | storage_remote.go:111-125 | a listing error changes nothing; otherwise the scan visits every listed name once, in an order it chooses, and the index gains the accepted stems in that order |
| Remote.RemoteScanContents | storage_remote.go:111-125 | whatever the order, the added stems are the five-rune stems of the listed `.webp` names, and without `sum` prefixes `"sum"` grows by them in that order |

## Left out

- Storage.Index.Pick: `rand.Intn` is a finite sequence of draws. When the draws run out, the result is `OutOfDraws`, where Go would keep drawing. Unbounded loops cannot be modelled, and uniformity of `math/rand` is not modelled.
- Storage.Index.SaveImg: the content of the 1 MiB buffer that a single `Read` fills is not modelled. The decode and hash outcomes describe that buffer, whatever it holds.
- ImgDiff.HammDistance: a failed `decodeDHash` yields a nil hash, and the model reports the comparison as an error, so the similarity scan skips that name. goimagehash is not part of this model. Its `Distance` most likely reads the nil receiver's kind and panics, which the model does not capture.
- ImgDiff.Distance: hashes are integers below 2^64 with XOR and population count defined bit by bit, rather than `uint64` machine operations.
- Image decoding and encoding (`image.Decode`, `webp.Decode`, `webp.Encode`, the encoder options) are foreign codecs. They appear only as outcomes in `Attempt`.
- `goimagehash.DifferenceHash`, base16384 and the UTF-8/UTF-16BE conversions are library code that is not part of this model. They are the `Library` parameter and the hash outcome. That decoding an identifier followed by `lastchar` yields the packed hash (`DecodesBack`) is an explicit precondition of the round-trip lemmas and of `Storage.SimilarAfterSave` only; what base16384 actually emits is not modelled.
- File system and network I/O are outcome flags and input listings:
  - `os.Create`, `io.Copy`, `os.ReadDir`;
  - the simple-storage client's `ListFiles` and `SetFile`.
- `GetImgBytes`, `SaveConf` and `GetConf` are I/O pass-throughs.
- Concurrency: `sync.Mutex` and the read-locked snapshot of `"sum"` are not modelled. The model is single-threaded.
- Logging, `init` and `Setloglevel` have no effect on results.
- The status strings and `url.QueryEscape` are not modelled. The `Status` datatype and the returned name stand in for them.
- The `uid` parameter is unused and is dropped, as are the remote client's url and key. `imgdir` only locates the files that the abstracted I/O reads and writes, so it is dropped with that I/O.
- Partial files: when the file is created but encoding or copying fails, the partial `dh.webp` stays on disk (only `defer f.Close()` follows), and a later scan indexes it. The model's I/O outcomes do not carry that file into the next listing.
