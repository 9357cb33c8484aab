/**
 * `NativeStorage`: images are files in a local directory, and the embedded
 * index is updated by every successful save and by the directory scan.
 */
module Native {
  import opened Wrappers
  import opened ImgDiff
  import opened Storage

  class NativeStorage {
    /** The embedded `storage` and its `images` map. */
    const store: Index

    /** `NewNativeStorage`: an empty index. */
    constructor ()
      ensures fresh(store) && store.images == map[]
    {
      store := new Index();
    }

    /**
     * `SaveImgBytes`: the shared decision, and on "success" the identifier is
     * added to the index; every other outcome leaves the index as it was.
     */
    method SaveImgBytes(lib: Library, a: Attempt, force: bool, samediff: int) returns (r: Saved)
      requires SaveDefined(lib, store.images, a, force, samediff)
      modifies store
      ensures r == Decide(lib, old(store.images), a, force, samediff)
      ensures store.images == if r.status == Success then Added(old(store.images), r.name) else old(store.images)
    {
      if a.decoded == NotImage {
        return Saved(NotAnImg, []);
      }
      var iswebp := a.decoded == WebpImage;
      var dh := GetDHashStr(lib, a.hash);
      if dh.Err? {
        return Saved(DhErr, []);
      }
      if force {
        var known := store.Exists(dh.value);
        if known {
          return Saved(Exist, dh.value);
        }
      } else {
        var s := store.Sum();
        var similar := FindSimilar(lib, dh.value, s, samediff);
        if similar.Some? {
          return Saved(Exist, similar.value);
        }
      }
      if !a.createOk {
        return Saved(IoErr, []);
      }
      if !iswebp {
        if !a.encodeOk {
          return Saved(EncErr, []);
        }
      } else {
        if !a.copyOk {
          return Saved(IoErr, []);
        }
      }
      store.Add(dh.value);
      return Saved(Success, dh.value);
    }

    /**
     * `SaveImg`: `readOk` is whether reading the whole stream succeeded; a
     * failed read is "ioerr" and the bytes read are saved in similarity mode.
     */
    method SaveImg(lib: Library, readOk: bool, a: Attempt, samediff: int) returns (r: Saved)
      requires readOk ==> SaveDefined(lib, store.images, a, false, samediff)
      modifies store
      ensures !readOk ==> r == Saved(IoErr, []) && store.images == old(store.images)
      ensures readOk ==> r == Decide(lib, old(store.images), a, false, samediff)
      ensures store.images == if r.status == Success then Added(old(store.images), r.name) else old(store.images)
    {
      if !readOk {
        return Saved(IoErr, []);
      }
      r := SaveImgBytes(lib, a, false, samediff);
    }

    /**
     * `ScanImgs` over the result of `os.ReadDir`: the same filter and the same
     * appends as `Scanimgs`, on the embedded index.
     */
    method ScanImgs(listing: Option<seq<DirEntry>>) returns (ok: bool)
      modifies store
      ensures ok == listing.Some?
      ensures store.images == if ok then AddedAll(old(store.images), Accepted(listing.value)) else old(store.images)
    {
      ok := store.Scan(listing);
    }
  }

  /**
   * Unlike `Saveimgbytes`, the native save remembers: an image saved with
   * "success" is found by the next forced save of the same bytes.
   */
  method SaveThenForceSave(ns: NativeStorage, lib: Library, a: Attempt, force: bool, samediff: int)
    returns (first: Saved, second: Saved)
    requires SaveDefined(lib, ns.store.images, a, force, samediff)
    modifies ns.store
    ensures first == Decide(lib, old(ns.store.images), a, force, samediff)
    ensures first.status == Success ==> second == Saved(Exist, first.name)
    ensures first.status != Success ==> second == Decide(lib, old(ns.store.images), a, true, samediff)
  {
    first := ns.SaveImgBytes(lib, a, force, samediff);
    if first.status == Success {
      ForcedResaveFindsItself(lib, old(ns.store.images), a, force, samediff);
    }
    second := ns.SaveImgBytes(lib, a, true, samediff);
  }
}
