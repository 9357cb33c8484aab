/**
 * `RemoteStorage`: images are uploaded to a simple-storage server, and the
 * embedded index is updated by every successful save and by the scan of the
 * server's listing. The client itself is not modelled: its upload result is a
 * parameter the save ignores, and its listing is a parameter of the scan.
 */
module Remote {
  import opened Wrappers
  import opened GoText
  import opened ImgDiff
  import opened Storage

  class RemoteStorage {
    /** The embedded `storage` and its `images` map. */
    const store: Index

    /** `NewRemoteStorage`: an empty index (the client's url and key are not modelled). */
    constructor ()
      ensures fresh(store) && store.images == map[]
    {
      store := new Index();
    }

    /**
     * `saveImg`: the shared decision with an in-memory buffer in place of a
     * file, so creating the target never fails, and copying a `bytes.Reader`
     * (what every caller passes) into that buffer never fails either. On "success" the identifier is
     * added to the index before the upload, and the upload's outcome `uploadOk`
     * is discarded: a failed upload still answers "success".
     */
    method saveImg(lib: Library, a: Attempt, force: bool, samediff: int, uploadOk: bool) returns (r: Saved)
      requires SaveDefined(lib, store.images, a, force, samediff)
      modifies store
      ensures r == Decide(lib, old(store.images), a.(createOk := true, copyOk := true), force, samediff)
      ensures store.images == if r.status == Success then Added(old(store.images), r.name) else old(store.images)
    {
      if a.decoded == NotImage {
        return Saved(NotAnImg, []);
      }
      var iswebp := a.decoded == WebpImage;
      var dh := GetDHashStr(lib, a.hash);
      var err := dh.Err?;
      if err {
        return Saved(DhErr, []);
      }
      if force {
        var known := store.Exists(dh.value);
        if known {
          return Saved(Exist, dh.value);
        }
      } else {
        var s := store.Sum();
        var similar := FindSimilar(lib, dh.value, s, samediff);
        if similar.Some? {
          return Saved(Exist, similar.value);
        }
      }
      // The buffer is allocated, not created: the error checked after it is
      // still the hashing error, which is nil here, so no "ioerr" is returned.
      assert !err;
      // A webp image is copied from a `bytes.Reader` into the buffer, which
      // cannot fail, so the "ioerr" after the copy is unreachable as well.
      if !iswebp {
        if !a.encodeOk {
          return Saved(EncErr, []);
        }
      }
      store.Add(dh.value);
      return Saved(Success, dh.value);
    }

    /** `SaveImgBytes`: `saveImg` over the given bytes. */
    method SaveImgBytes(lib: Library, a: Attempt, force: bool, samediff: int, uploadOk: bool) returns (r: Saved)
      requires SaveDefined(lib, store.images, a, force, samediff)
      modifies store
      ensures r == Decide(lib, old(store.images), a.(createOk := true, copyOk := true), force, samediff)
      ensures store.images == if r.status == Success then Added(old(store.images), r.name) else old(store.images)
    {
      r := saveImg(lib, a, force, samediff, uploadOk);
    }

    /** `SaveImg`: a failed read of the stream is "ioerr"; otherwise `saveImg` in similarity mode. */
    method SaveImg(lib: Library, readOk: bool, a: Attempt, samediff: int, uploadOk: bool) returns (r: Saved)
      requires readOk ==> SaveDefined(lib, store.images, a, false, samediff)
      modifies store
      ensures !readOk ==> r == Saved(IoErr, []) && store.images == old(store.images)
      ensures readOk ==> r == Decide(lib, old(store.images), a.(createOk := true, copyOk := true), false, samediff)
      ensures store.images == if r.status == Success then Added(old(store.images), r.name) else old(store.images)
    {
      if !readOk {
        return Saved(IoErr, []);
      }
      r := saveImg(lib, a, false, samediff, uploadOk);
    }

    /**
     * `ScanImgs` over the key set of the server's listing (None is a listing
     * error). Go visits a map in no fixed order: `order` is the order this
     * run chose, a duplicate-free enumeration of the listing, and the index
     * grows by the accepted names in that order.
     */
    method ScanImgs(listing: Option<set<Bytes>>) returns (ok: bool, ghost order: seq<Bytes>)
      modifies store
      ensures ok == listing.Some?
      ensures ok ==> |order| == |listing.value| && forall n :: n in order <==> n in listing.value
      ensures store.images == if ok then AddedAll(old(store.images), AcceptedNames(order)) else old(store.images)
    {
      order := [];
      if listing.None? {
        return false, order;
      }
      var remaining := listing.value;
      while remaining != {}
        invariant remaining <= listing.value
        invariant forall n :: n in order <==> n in listing.value && n !in remaining
        invariant |order| + |remaining| == |listing.value|
        invariant store.images == AddedAll(old(store.images), AcceptedNames(order))
        decreases |remaining|
      {
        var name :| name in remaining;
        remaining := remaining - {name};
        ListingStep(old(store.images), order, name);
        ScanName(name);
        order := order + [name];
      }
      return true, order;
    }

    /** One name of the listing: the filter, then `AddImage` on the stem. */
    method ScanName(name: Bytes)
      modifies store
      ensures store.images == if StemOf(name).Some? then Added(old(store.images), StemOf(name).value) else old(store.images)
    {
      if HasSuffix(name, WebpSuffix) {
        var stem := name[..|name| - 5];
        if RuneCount(stem) == 5 {
          store.Add(stem);
        }
      }
    }
  }

  lemma ListingStep(m: Images, order: seq<Bytes>, name: Bytes)
    ensures AddedAll(m, AcceptedNames(order + [name])) ==
      if StemOf(name).Some? then Added(AddedAll(m, AcceptedNames(order)), StemOf(name).value)
      else AddedAll(m, AcceptedNames(order))
  {
    AcceptedNamesStep(order, name);
    if StemOf(name).Some? {
      AddedAllStep(m, AcceptedNames(order), StemOf(name).value);
    } else {
      assert AcceptedNames(order + [name]) == AcceptedNames(order);
    }
  }

  /**
   * Whatever order the scan chose, the rebuilt "sum" grows by the accepted
   * names in that order, provided none of them starts with "sum", and the
   * accepted names are the five-rune stems of the listed ".webp" names.
   */
  lemma RemoteScanContents(m: Images, listing: set<Bytes>, order: seq<Bytes>, stem: Bytes)
    requires |order| == |listing| && forall n :: n in order <==> n in listing
    requires forall n :: n in AcceptedNames(order) ==> n[..3] != SumKey
    ensures Bucket(AddedAll(m, AcceptedNames(order)), SumKey) == Bucket(m, SumKey) + AcceptedNames(order)
    ensures stem in AcceptedNames(order) <==> stem + WebpSuffix in listing && RuneCount(stem) == 5
  {
    SumAfterAddAll(m, AcceptedNames(order));
    AcceptedNamesMembers(order, stem);
  }
}
