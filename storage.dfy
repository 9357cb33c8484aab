/**
 * The dedup index of storage.go. A map from the first three bytes of a name
 * to the list of the remaining bytes of every name added under that prefix.
 * The same map holds, under the reserved key "sum", the flat list of all
 * names in insertion order; nothing keeps a name whose prefix is "sum" from
 * appending its tail to that list too. On top of the index sit the directory
 * scan that rebuilds it, the random sampler `Pick`, the similarity scan and
 * the save decision every storage variant shares.
 */
module Storage {
  import opened Wrappers
  import opened GoText
  import opened ImgDiff

  /** The reserved key "sum". */
  const SumKey: Bytes := [0x73, 0x75, 0x6D]

  /** The file extension ".webp". */
  const WebpSuffix: Bytes := [0x2E, 0x77, 0x65, 0x62, 0x70]

  /** The `map[string][]string` of the index. */
  type Images = map<Bytes, seq<Bytes>>

  /** A name long enough to be split into its 3-byte prefix and its tail. */
  type Name = s: Bytes | |s| >= 3 witness [0, 0, 0]

  /** `images[key]`, with Go's nil slice for an absent key. */
  function Bucket(m: Images, key: Bytes): seq<Bytes> {
    if key in m then m[key] else []
  }

  /** What `Imgexsits` answers: the tail of the name is in the bucket of its 3-byte prefix. */
  predicate InIndex(m: Images, name: Bytes)
    requires |name| >= 3
  {
    name[..3] in m && name[3..] in m[name[..3]]
  }

  /**
   * The index after `Addimage(name)`: the tail is appended to the bucket of
   * the prefix, then the name to the bucket "sum" as it is after that first
   * append. Only those two keys change.
   */
  function Added(m: Images, name: Bytes): (r: Images)
    requires |name| >= 3
    ensures r.Keys == m.Keys + {name[..3], SumKey}
    ensures forall k :: k in m && k != name[..3] && k != SumKey ==> r[k] == m[k]
    ensures name[..3] != SumKey ==>
      r[name[..3]] == Bucket(m, name[..3]) + [name[3..]] && r[SumKey] == Bucket(m, SumKey) + [name]
    ensures name[..3] == SumKey ==> r[SumKey] == Bucket(m, SumKey) + [name[3..], name]
  {
    var index := name[..3];
    var m1 := m[index := Bucket(m, index) + [name[3..]]];
    m1[SumKey := Bucket(m1, SumKey) + [name]]
  }

  lemma SplitName(a: Bytes, b: Bytes)
    requires |a| >= 3 && |b| >= 3
    ensures a == b <==> a[..3] == b[..3] && a[3..] == b[3..]
  {
  }

  /**
   * Which names exist after `Addimage(a)`: those that existed, `a` itself,
   * and, through the shared key, every name "sum" + a.
   */
  lemma InIndexAfterAdd(m: Images, a: Bytes, b: Bytes)
    requires |a| >= 3 && |b| >= 3
    ensures InIndex(Added(m, a), b) <==> InIndex(m, b) || b == a || (b[..3] == SumKey && b[3..] == a)
  {
    SplitName(a, b);
    var r := Added(m, a);
    if b[..3] == a[..3] {
      if a[..3] == SumKey {
        assert r[SumKey] == Bucket(m, SumKey) + [a[3..], a];
      } else {
        assert r[a[..3]] == Bucket(m, a[..3]) + [a[3..]];
      }
    } else if b[..3] == SumKey {
      assert r[SumKey] == Bucket(m, SumKey) + [a];
    }
  }

  /** After `Addimage(name)`, `Imgexsits(name)` holds. */
  lemma ExistsAfterAdd(m: Images, name: Bytes)
    requires |name| >= 3
    ensures InIndex(Added(m, name), name)
  {
  }

  /**
   * Each `Addimage(name)` adds one more copy of the name to "sum" and one more
   * copy of its tail to its bucket, whatever was there before.
   */
  lemma AddCounts(m: Images, name: Bytes)
    requires |name| >= 3
    ensures multiset(Bucket(Added(m, name), SumKey))[name] == multiset(Bucket(m, SumKey))[name] + 1
    ensures multiset(Bucket(Added(m, name), name[..3]))[name[3..]]
         == multiset(Bucket(m, name[..3]))[name[3..]] + 1
  {
  }

  /** `Addimage` is not idempotent: adding a name twice records it twice. */
  lemma AddTwiceRecordsTwice(m: Images, name: Bytes)
    requires |name| >= 3
    ensures multiset(Bucket(Added(Added(m, name), name), SumKey))[name]
         == multiset(Bucket(m, SumKey))[name] + 2
    ensures Added(Added(m, name), name) != Added(m, name)
  {
  }

  // ---------------------------------------------------------------------------
  // Rebuilding the index from a listing (Scanimgs)
  // ---------------------------------------------------------------------------

  /** A directory entry as `os.ReadDir` lists it. */
  datatype DirEntry = DirEntry(name: Bytes, isDir: bool)

  /**
   * The name filter of every scan: a file name ending in ".webp" whose stem,
   * the name without those five bytes, has exactly five runes.
   */
  function StemOf(name: Bytes): (r: Option<Bytes>)
    ensures r.Some? ==> name == r.value + WebpSuffix && RuneCount(r.value) == 5 && |r.value| >= 5
  {
    if HasSuffix(name, WebpSuffix) then
      var stem := name[..|name| - 5];
      assert name == stem + WebpSuffix;
      if RuneCount(stem) == 5 then Some(stem) else None
    else None
  }

  /** The filter accepts exactly the names "<stem>.webp" with a five-rune stem. */
  lemma StemOfSpec(name: Bytes, stem: Bytes)
    ensures StemOf(name) == Some(stem) <==> name == stem + WebpSuffix && RuneCount(stem) == 5
  {
  }

  function KeepStem(name: Bytes): (r: seq<Name>)
    ensures |r| <= 1 && forall i :: 0 <= i < |r| ==> RuneCount(r[i]) == 5
  {
    match StemOf(name)
    case Some(stem) => [stem]
    case None => []
  }

  /** What one directory entry contributes: nothing for a directory, else the stem if the filter accepts it. */
  function Kept(e: DirEntry): seq<Name>
  {
    if e.isDir then [] else KeepStem(e.name)
  }

  /** The names `Scanimgs` adds, in listing order: stems of accepted files that are not directories. */
  function Accepted(entries: seq<DirEntry>): (r: seq<Name>)
    ensures |r| <= |entries|
    ensures forall i :: 0 <= i < |r| ==> RuneCount(r[i]) == 5
  {
    if entries == [] then []
    else
      var last := entries[|entries| - 1];
      Accepted(entries[..|entries| - 1]) + Kept(last)
  }

  lemma AcceptedSnoc(entries: seq<DirEntry>, e: DirEntry)
    ensures Accepted(entries + [e]) == Accepted(entries) + Kept(e)
  {
  }

  /** The filter keeps the listing order: it distributes over concatenation. */
  lemma {:induction false} AcceptedConcat(a: seq<DirEntry>, b: seq<DirEntry>)
    ensures Accepted(a + b) == Accepted(a) + Accepted(b)
    decreases |b|
  {
    if b == [] {
      assert a + b == a;
    } else {
      var init, last := b[..|b| - 1], b[|b| - 1];
      assert b == init + [last];
      assert a + b == (a + init) + [last];
      AcceptedSnoc(a + init, last);
      AcceptedSnoc(init, last);
      AcceptedConcat(a, init);
    }
  }

  /** The i-th entry is a file named "<stem>.webp" and the stem has five runes. */
  predicate ListsStem(entries: seq<DirEntry>, i: nat, stem: Bytes)
    requires i < |entries|
  {
    !entries[i].isDir && entries[i].name == stem + WebpSuffix && RuneCount(stem) == 5
  }

  lemma KeptSpec(e: DirEntry, stem: Bytes)
    ensures stem in Kept(e) <==> !e.isDir && e.name == stem + WebpSuffix && RuneCount(stem) == 5
  {
  }

  /** A stem is added exactly when some file of the listing is named "<stem>.webp" with a five-rune stem. */
  lemma {:induction false} AcceptedMembers(entries: seq<DirEntry>, stem: Bytes)
    ensures stem in Accepted(entries) <==> exists i :: 0 <= i < |entries| && ListsStem(entries, i, stem)
    decreases |entries|
  {
    if entries != [] {
      var init, last := entries[..|entries| - 1], entries[|entries| - 1];
      AcceptedMembers(init, stem);
      KeptSpec(last, stem);
      assert forall i :: 0 <= i < |init| ==> ListsStem(init, i, stem) == ListsStem(entries, i, stem);
      if stem in Kept(last) {
        assert ListsStem(entries, |entries| - 1, stem);
      } else if exists i :: 0 <= i < |entries| && ListsStem(entries, i, stem) {
        var i :| 0 <= i < |entries| && ListsStem(entries, i, stem);
        assert i < |init| && ListsStem(init, i, stem);
      }
    }
  }

  lemma AcceptedStep(entries: seq<DirEntry>, i: nat)
    requires i < |entries|
    ensures entries[i].isDir || StemOf(entries[i].name).None? ==>
      Accepted(entries[..i + 1]) == Accepted(entries[..i])
    ensures !entries[i].isDir && StemOf(entries[i].name).Some? ==>
      Accepted(entries[..i + 1]) == Accepted(entries[..i]) + [StemOf(entries[i].name).value]
  {
    assert entries[..i + 1][..i] == entries[..i];
  }

  /** The names a scan of bare file names adds, in visiting order (the remote listing has no directories). */
  function AcceptedNames(names: seq<Bytes>): (r: seq<Name>)
    ensures |r| <= |names|
    ensures forall i :: 0 <= i < |r| ==> RuneCount(r[i]) == 5
  {
    if names == [] then []
    else AcceptedNames(names[..|names| - 1]) + KeepStem(names[|names| - 1])
  }

  lemma AcceptedNamesStep(names: seq<Bytes>, name: Bytes)
    ensures AcceptedNames(names + [name]) == AcceptedNames(names) + KeepStem(name)
  {
  }

  /** Whatever the visiting order, a stem is added exactly when "<stem>.webp" is listed and the stem has five runes. */
  lemma {:induction false} AcceptedNamesMembers(names: seq<Bytes>, stem: Bytes)
    ensures stem in AcceptedNames(names) <==> stem + WebpSuffix in names && RuneCount(stem) == 5
    decreases |names|
  {
    if names != [] {
      var init := names[..|names| - 1];
      var last := names[|names| - 1];
      assert names == init + [last];
      AcceptedNamesMembers(init, stem);
      StemOfSpec(last, stem);
    }
  }

  /** The index after adding the names one after the other. */
  function AddedAll(m: Images, names: seq<Name>): (r: Images)
    ensures m.Keys <= r.Keys
    ensures forall i :: 0 <= i < |names| ==> InIndex(r, names[i])
  {
    if names == [] then m
    else
      var init, last := names[..|names| - 1], names[|names| - 1];
      var prev := AddedAll(m, init);
      assert forall i :: 0 <= i < |init| ==> init[i] == names[i];
      AddedKeeps(prev, last);
      Added(prev, last)
  }

  /** `Addimage` removes no name: what existed still exists, and so does the added name. */
  lemma AddedKeeps(m: Images, a: Name)
    ensures forall b: Name :: InIndex(m, b) ==> InIndex(Added(m, a), b)
    ensures InIndex(Added(m, a), a)
  {
    forall b: Name | InIndex(m, b) ensures InIndex(Added(m, a), b) {
      InIndexAfterAdd(m, a, b);
    }
  }

  lemma AddedAllStep(m: Images, names: seq<Name>, name: Name)
    ensures AddedAll(m, names + [name]) == Added(AddedAll(m, names), name)
  {
  }

  lemma ScanStep(m: Images, entries: seq<DirEntry>, i: nat)
    requires i < |entries|
    ensures AddedAll(m, Accepted(entries[..i + 1])) ==
      if !entries[i].isDir && StemOf(entries[i].name).Some? then
        Added(AddedAll(m, Accepted(entries[..i])), StemOf(entries[i].name).value)
      else AddedAll(m, Accepted(entries[..i]))
  {
    AcceptedStep(entries, i);
    if !entries[i].isDir && StemOf(entries[i].name).Some? {
      AddedAllStep(m, Accepted(entries[..i]), StemOf(entries[i].name).value);
    }
  }

  lemma {:induction false} AddedAllConcat(m: Images, a: seq<Name>, b: seq<Name>)
    ensures AddedAll(m, a + b) == AddedAll(AddedAll(m, a), b)
    decreases |b|
  {
    if b == [] {
      assert a + b == a;
    } else {
      assert (a + b)[..|a + b| - 1] == a + b[..|b| - 1];
      AddedAllConcat(m, a, b[..|b| - 1]);
    }
  }

  lemma SumAfterAdd(m: Images, name: Bytes)
    requires |name| >= 3 && name[..3] != SumKey
    ensures Bucket(Added(m, name), SumKey) == Bucket(m, SumKey) + [name]
  {
  }

  /** Without names under the prefix "sum", "sum" grows by exactly the added names, in order. */
  lemma {:induction false} SumAfterAddAll(m: Images, names: seq<Name>)
    requires forall n :: n in names ==> n[..3] != SumKey
    ensures Bucket(AddedAll(m, names), SumKey) == Bucket(m, SumKey) + names
    decreases |names|
  {
    if names == [] {
    } else {
      var init := names[..|names| - 1];
      var last := names[|names| - 1];
      assert names == init + [last];
      SumAfterAddAll(m, init);
      AddedAllStep(m, init, last);
      SumAfterAdd(AddedAll(m, init), last);
    }
  }

  /** Rebuilding is not idempotent: scanning the same listing twice lists every name twice. */
  lemma RescanDuplicates(m: Images, entries: seq<DirEntry>)
    requires forall n :: n in Accepted(entries) ==> n[..3] != SumKey
    ensures Bucket(AddedAll(AddedAll(m, Accepted(entries)), Accepted(entries)), SumKey)
         == Bucket(m, SumKey) + Accepted(entries) + Accepted(entries)
  {
    var names := Accepted(entries);
    SumAfterAddAll(m, names);
    SumAfterAddAll(AddedAll(m, names), names);
  }

  /** The file "sumab.webp" passes the name filter. */
  lemma SumStemAccepted()
    ensures StemOf([0x73, 0x75, 0x6D, 0x61, 0x62] + WebpSuffix) == Some([0x73, 0x75, 0x6D, 0x61, 0x62])
  {
    var stem: Bytes := [0x73, 0x75, 0x6D, 0x61, 0x62];
    AsciiRuneCount(stem);
    StemOfSpec(stem + WebpSuffix, stem);
  }

  /**
   * The shared key in action: the file "sumab.webp" passes the filter, so the
   * rebuilt "sum" lists the tail "ab", which is not a name, before "sumab".
   */
  lemma SumKeyCollision()
    ensures Bucket(AddedAll(map[], Accepted([DirEntry([0x73, 0x75, 0x6D, 0x61, 0x62] + WebpSuffix, false)])), SumKey)
         == [[0x61, 0x62], [0x73, 0x75, 0x6D, 0x61, 0x62]]
  {
    var stem: Bytes := [0x73, 0x75, 0x6D, 0x61, 0x62];
    var e := DirEntry(stem + WebpSuffix, false);
    SumStemAccepted();
    AcceptedStep([e], 0);
    assert [e][..1] == [e];
    assert Accepted([e]) == [stem];
    AddedAllStep(map[], [], stem);
    assert [] + [stem] == [stem];
    CollisionBucket(stem);
  }

  lemma CollisionBucket(stem: Bytes)
    requires stem == [0x73, 0x75, 0x6D, 0x61, 0x62]
    ensures Bucket(Added(map[], stem), SumKey) == [[0x61, 0x62], stem]
  {
    assert stem[..3] == SumKey;
    assert stem[3..] == [0x61, 0x62];
  }

  // ---------------------------------------------------------------------------
  // The random sampler (Pick)
  // ---------------------------------------------------------------------------

  /**
   * What `Pick` returns: a name, the empty string "", or, in the model only,
   * the fact that the supplied random draws were used up before Go's loop
   * would have stopped.
   */
  datatype Draw = Picked(name: Bytes) | NoName | OutOfDraws

  /** Every draw is what `rand.Intn(n)` can return. */
  predicate DrawsBelow(draws: seq<nat>, n: nat) {
    forall i :: 0 <= i < |draws| ==> draws[i] < n
  }

  /** Rejection sampling: the first drawn name that is not excluded. */
  function Rejection(sum: seq<Bytes>, exclude: seq<Bytes>, draws: seq<nat>): (r: Draw)
    requires DrawsBelow(draws, |sum|)
    ensures r != NoName
    ensures r.Picked? ==> r.name in sum && r.name !in exclude
    ensures r == OutOfDraws <==> forall i :: 0 <= i < |draws| ==> sum[draws[i]] in exclude
  {
    if draws == [] then OutOfDraws
    else if sum[draws[0]] !in exclude then Picked(sum[draws[0]])
    else Rejection(sum, exclude, draws[1..])
  }

  /** The linear scan: the first name of `sum` that is not excluded, or "". */
  function FirstNotIn(sum: seq<Bytes>, exclude: seq<Bytes>): (r: Draw)
    ensures r != OutOfDraws
    ensures r.Picked? ==> r.name in sum && r.name !in exclude
    ensures r == NoName <==> forall i :: 0 <= i < |sum| ==> sum[i] in exclude
  {
    if sum == [] then NoName
    else if sum[0] !in exclude then Picked(sum[0])
    else FirstNotIn(sum[1..], exclude)
  }

  /** The scan returns the FIRST name that is not excluded. */
  lemma {:induction false} FirstNotInIsFirst(sum: seq<Bytes>, exclude: seq<Bytes>)
    requires FirstNotIn(sum, exclude).Picked?
    ensures exists i :: (0 <= i < |sum| && sum[i] == FirstNotIn(sum, exclude).name
      && forall j :: 0 <= j < i ==> sum[j] in exclude)
  {
    if sum[0] in exclude {
      FirstNotInIsFirst(sum[1..], exclude);
      var i :| 0 <= i < |sum[1..]| && sum[1..][i] == FirstNotIn(sum, exclude).name
        && forall j :: 0 <= j < i ==> sum[1..][j] in exclude;
      assert sum[i + 1] == FirstNotIn(sum, exclude).name;
      forall j | 0 <= j < i + 1 ensures sum[j] in exclude {
        if j > 0 { assert sum[j] == sum[1..][j - 1]; }
      }
    } else {
      assert sum[0] == FirstNotIn(sum, exclude).name;
    }
  }

  /** Which strategy `Pick` uses. */
  predicate RejectionBranch(ls: nat, le: nat) {
    0 < le < ls && ls / le > 10
  }

  predicate LinearBranch(ls: nat, le: nat) {
    0 < le < ls && ls / le <= 10
  }

  /**
   * `Pick(exclude)` on the list `sum`, with `draws` the successive results of
   * `rand.Intn(len(sum))`.
   */
  function Choose(sum: seq<Bytes>, exclude: seq<Bytes>, draws: seq<nat>): (r: Draw)
    requires DrawsBelow(draws, |sum|)
    ensures |exclude| >= |sum| ==> r == NoName
    ensures |exclude| == 0 < |sum| ==> r == if draws == [] then OutOfDraws else Picked(sum[draws[0]])
    ensures r.Picked? ==> r.name in sum && r.name !in exclude
    ensures r == NoName ==> |exclude| >= |sum| || forall i :: 0 <= i < |sum| ==> sum[i] in exclude
    ensures r == OutOfDraws ==> forall i :: 0 <= i < |draws| ==> sum[draws[i]] in exclude
    ensures LinearBranch(|sum|, |exclude|) ==> r == FirstNotIn(sum, exclude)
    ensures RejectionBranch(|sum|, |exclude|) ==> r == Rejection(sum, exclude, draws)
  {
    var le, ls := |exclude|, |sum|;
    if le >= ls then NoName
    else if le == 0 then (if draws == [] then OutOfDraws else Picked(sum[draws[0]]))
    else if ls / le > 10 then Rejection(sum, exclude, draws)
    else FirstNotIn(sum, exclude)
  }

  /**
   * The rejection branch never stops when every name of `sum` is excluded:
   * no number of draws yields a name.
   */
  lemma RejectionLivelock(sum: seq<Bytes>, exclude: seq<Bytes>, draws: seq<nat>)
    requires DrawsBelow(draws, |sum|)
    requires RejectionBranch(|sum|, |exclude|)
    requires forall n :: n in sum ==> n in exclude
    ensures Choose(sum, exclude, draws) == OutOfDraws
  {
  }

  /** That case is reachable once "sum" holds a name eleven times and exclude holds it once. */
  lemma LivelockReachable(name: Bytes, draws: seq<nat>)
    requires DrawsBelow(draws, 11)
    ensures Choose(seq(11, _ => name), [name], draws) == OutOfDraws
  {
  }

  /** The length test looks only at lengths: an exclusion list as long as "sum" returns "". */
  lemma LengthTestIgnoresContents(a: Bytes, b: Bytes, c: Bytes, draws: seq<nat>)
    requires DrawsBelow(draws, 2)
    requires a != c && b != c
    ensures Choose([a, b], [c, c], draws) == NoName
  {
  }

  /** The rejection branch of `Pick`: draw again while the drawn name is excluded. */
  method PickByRejection(sum: seq<Bytes>, exclude: seq<Bytes>, draws: seq<nat>) returns (r: Draw)
    requires DrawsBelow(draws, |sum|)
    ensures r == Rejection(sum, exclude, draws)
  {
    if |draws| == 0 {
      return OutOfDraws;
    }
    var name := sum[draws[0]];
    var used := 1;
    var excluded := NameIn(name, exclude);
    while excluded
      invariant 1 <= used <= |draws|
      invariant name == sum[draws[used - 1]]
      invariant excluded == (name in exclude)
      invariant Rejection(sum, exclude, draws) == Rejection(sum, exclude, draws[used - 1..])
      decreases |draws| - used
    {
      assert draws[used - 1..][1..] == draws[used..];
      if used == |draws| {
        return OutOfDraws;
      }
      name := sum[draws[used]];
      used := used + 1;
      excluded := NameIn(name, exclude);
    }
    return Picked(name);
  }

  /** The linear branch of `Pick`: the first name of `sum` that is not excluded. */
  method PickFirstFit(sum: seq<Bytes>, exclude: seq<Bytes>) returns (r: Draw)
    ensures r == FirstNotIn(sum, exclude)
  {
    var i := 0;
    while i < |sum|
      invariant 0 <= i <= |sum|
      invariant FirstNotIn(sum, exclude) == FirstNotIn(sum[i..], exclude)
    {
      var excluded := NameIn(sum[i], exclude);
      if !excluded {
        return Picked(sum[i]);
      }
      assert sum[i..][1..] == sum[i + 1..];
      i := i + 1;
    }
    return NoName;
  }

  // ---------------------------------------------------------------------------
  // Similarity matching
  // ---------------------------------------------------------------------------

  /** `err == nil && diff <= samediff` for one stored name. */
  predicate Similar(lib: Library, dh: Bytes, name: Bytes, samediff: int)
    requires Decodable(lib, dh) && Decodable(lib, name)
    ensures Similar(lib, dh, name, samediff) ==> samediff >= 0
    ensures Similar(lib, dh, name, samediff) ==> DecodeDHash(lib, dh).Some? && DecodeDHash(lib, name).Some?
    ensures DecodeDHash(lib, dh).Some? && DecodeDHash(lib, dh) == DecodeDHash(lib, name) ==>
      (Similar(lib, dh, name, samediff) <==> samediff >= 0)
  {
    var d := HammDistance(lib, dh, name);
    d.Ok? && d.value <= samediff
  }

  /** The i-th stored name can be compared with dh and is within the threshold. */
  predicate MatchAt(lib: Library, dh: Bytes, names: seq<Bytes>, samediff: int, i: nat)
    requires i < |names|
  {
    Decodable(lib, dh) && Decodable(lib, names[i]) && Similar(lib, dh, names[i], samediff)
  }

  /**
   * The scan does not panic: every name it reaches, up to and including the
   * first similar one, decodes to at least 8 bytes, and so does dh.
   */
  predicate ScanSafe(lib: Library, dh: Bytes, names: seq<Bytes>, samediff: int) {
    |names| == 0 ||
    (Decodable(lib, dh) && Decodable(lib, names[0]) &&
     (Similar(lib, dh, names[0], samediff) || ScanSafe(lib, dh, names[1..], samediff)))
  }

  /** The first stored name similar to dh, in insertion order. */
  function FirstSimilar(lib: Library, dh: Bytes, names: seq<Bytes>, samediff: int): (r: Option<Bytes>)
    requires ScanSafe(lib, dh, names, samediff)
    ensures r.Some? ==> r.value in names
  {
    if names == [] then None
    else if Similar(lib, dh, names[0], samediff) then Some(names[0])
    else FirstSimilar(lib, dh, names[1..], samediff)
  }

  /**
   * The scan's answer: a name at the first index that matches, or None when
   * no index matches. Ties are resolved by position, not by distance.
   */
  lemma {:induction false} FirstSimilarSpec(lib: Library, dh: Bytes, names: seq<Bytes>, samediff: int)
    requires ScanSafe(lib, dh, names, samediff)
    ensures FirstSimilar(lib, dh, names, samediff).Some? ==>
      exists i :: 0 <= i < |names| && names[i] == FirstSimilar(lib, dh, names, samediff).value
        && MatchAt(lib, dh, names, samediff, i)
        && forall j :: 0 <= j < i ==> !MatchAt(lib, dh, names, samediff, j)
    ensures FirstSimilar(lib, dh, names, samediff).None? <==>
      forall i :: 0 <= i < |names| ==> !MatchAt(lib, dh, names, samediff, i)
  {
    if names != [] {
      if Similar(lib, dh, names[0], samediff) {
        assert MatchAt(lib, dh, names, samediff, 0);
      } else {
        var rest := names[1..];
        FirstSimilarSpec(lib, dh, rest, samediff);
        assert forall j :: 0 <= j < |rest| ==>
          MatchAt(lib, dh, rest, samediff, j) == MatchAt(lib, dh, names, samediff, j + 1);
        assert !MatchAt(lib, dh, names, samediff, 0);
        if FirstSimilar(lib, dh, rest, samediff).Some? {
          var i :| 0 <= i < |rest| && rest[i] == FirstSimilar(lib, dh, rest, samediff).value
            && MatchAt(lib, dh, rest, samediff, i)
            && forall j :: 0 <= j < i ==> !MatchAt(lib, dh, rest, samediff, j);
          assert names[i + 1] == rest[i];
          forall j | 0 <= j < i + 1 ensures !MatchAt(lib, dh, names, samediff, j) {
            if j > 0 { assert !MatchAt(lib, dh, rest, samediff, j - 1); }
          }
        } else {
          forall i | 0 <= i < |names| ensures !MatchAt(lib, dh, names, samediff, i) {
            if i > 0 { assert !MatchAt(lib, dh, rest, samediff, i - 1); }
          }
        }
      }
    }
  }

  lemma {:induction false} ScanSafeAppend(lib: Library, dh: Bytes, names: seq<Bytes>, x: Bytes, samediff: int)
    requires ScanSafe(lib, dh, names + [x], samediff)
    ensures ScanSafe(lib, dh, names, samediff)
    ensures FirstSimilar(lib, dh, names, samediff).Some? ==>
      FirstSimilar(lib, dh, names + [x], samediff) == FirstSimilar(lib, dh, names, samediff)
    ensures FirstSimilar(lib, dh, names, samediff).None? ==>
      Decodable(lib, dh) && Decodable(lib, x) &&
      FirstSimilar(lib, dh, names + [x], samediff) == (if Similar(lib, dh, x, samediff) then Some(x) else None)
    decreases |names|
  {
    if names == [] {
      assert names + [x] == [x];
      assert [x][1..] == [];
    } else {
      assert (names + [x])[1..] == names[1..] + [x];
      if !Similar(lib, dh, names[0], samediff) {
        ScanSafeAppend(lib, dh, names[1..], x, samediff);
      }
    }
  }

  /** The scan loop over the snapshot of "sum". */
  method FindSimilar(lib: Library, dh: Bytes, names: seq<Bytes>, samediff: int) returns (r: Option<Bytes>)
    requires ScanSafe(lib, dh, names, samediff)
    ensures r == FirstSimilar(lib, dh, names, samediff)
  {
    var i := 0;
    while i < |names|
      invariant 0 <= i <= |names|
      invariant ScanSafe(lib, dh, names[i..], samediff)
      invariant FirstSimilar(lib, dh, names, samediff) == FirstSimilar(lib, dh, names[i..], samediff)
    {
      var diff := HammDistance(lib, dh, names[i]);
      if diff.Ok? && diff.value <= samediff {
        return Some(names[i]);
      }
      assert names[i..][1..] == names[i + 1..];
      i := i + 1;
    }
    return None;
  }

  /** `namein`: membership by a loop with a break flag. */
  method NameIn(name: Bytes, list: seq<Bytes>) returns (found: bool)
    ensures found == (name in list)
  {
    found := false;
    var i := 0;
    while i < |list|
      invariant 0 <= i <= |list|
      invariant found == (name in list[..i])
      invariant !found
    {
      if name == list[i] {
        found := true;
        break;
      }
      assert list[..i + 1] == list[..i] + [list[i]];
      i := i + 1;
    }
    assert !found ==> list[..i] == list;
  }

  // ---------------------------------------------------------------------------
  // The save decision
  // ---------------------------------------------------------------------------

  /** What the image codecs make of the bytes: `image.Decode`, else `webp.Decode`, else neither. */
  datatype Decoded = Image | WebpImage | NotImage

  /**
   * The outcomes of the foreign steps of one save: decoding, hashing, creating
   * the file, encoding to webp (for a non-webp image) and copying the bytes
   * (for a webp image).
   */
  datatype Attempt = Attempt(decoded: Decoded, hash: Result<Uint64>, createOk: bool, encodeOk: bool, copyOk: bool)

  /** The `"stat"` values of the returned status string. */
  datatype Status = NotAnImg | DhErr | IoErr | EncErr | Exist | Success

  /** The `(status, name)` pair a save returns. */
  datatype Saved = Saved(status: Status, name: Bytes)

  /** Force mode: the exact name; similarity mode: the first similar name of "sum". */
  function Match(lib: Library, m: Images, dh: Bytes, force: bool, samediff: int): (r: Option<Bytes>)
    requires |dh| >= 3
    requires !force ==> ScanSafe(lib, dh, Bucket(m, SumKey), samediff)
    ensures force ==> (r.Some? <==> InIndex(m, dh)) && (r.Some? ==> r.value == dh)
    ensures !force ==> r == FirstSimilar(lib, dh, Bucket(m, SumKey), samediff)
  {
    if force then (if InIndex(m, dh) then Some(dh) else None)
    else FirstSimilar(lib, dh, Bucket(m, SumKey), samediff)
  }

  /** The save does not panic: the identifier can be cut and every compared name decoded. */
  predicate SaveDefined(lib: Library, m: Images, a: Attempt, force: bool, samediff: int) {
    a.decoded != NotImage && a.hash.Ok? ==>
      Encodable(lib, a.hash.value) &&
      (!force ==> ScanSafe(lib, Identifier(lib, a.hash.value), Bucket(m, SumKey), samediff))
  }

  /**
   * The decision of `Saveimgbytes` and of both storage variants' saves: the
   * first failing step names the status (with the name ""), a match returns
   * "exist" with the matched name, and otherwise the image is persisted under
   * its identifier.
   */
  function Decide(lib: Library, m: Images, a: Attempt, force: bool, samediff: int): (r: Saved)
    requires SaveDefined(lib, m, a, force, samediff)
    ensures r.status in {NotAnImg, DhErr, IoErr, EncErr} ==> r.name == []
    ensures r.status == NotAnImg <==> a.decoded == NotImage
    ensures r.status == DhErr <==> a.decoded != NotImage && a.hash.Err?
    ensures r.status == Exist ==>
      a.hash.Ok? && Match(lib, m, Identifier(lib, a.hash.value), force, samediff) == Some(r.name)
    ensures a.decoded != NotImage && a.hash.Ok? && Match(lib, m, Identifier(lib, a.hash.value), force, samediff).Some? ==>
      r == Saved(Exist, Match(lib, m, Identifier(lib, a.hash.value), force, samediff).value)
    ensures r.status == EncErr <==>
      && a.decoded == Image && a.hash.Ok?
      && Match(lib, m, Identifier(lib, a.hash.value), force, samediff).None?
      && a.createOk && !a.encodeOk
    ensures r.status == IoErr <==>
      && a.decoded != NotImage && a.hash.Ok?
      && Match(lib, m, Identifier(lib, a.hash.value), force, samediff).None?
      && (!a.createOk || (a.decoded == WebpImage && !a.copyOk))
    ensures r.status == Success <==>
      && a.decoded != NotImage && a.hash.Ok?
      && Match(lib, m, Identifier(lib, a.hash.value), force, samediff).None?
      && a.createOk
      && (a.decoded == Image ==> a.encodeOk)
      && (a.decoded == WebpImage ==> a.copyOk)
    ensures r.status == Success ==> r.name == Identifier(lib, a.hash.value)
  {
    if a.decoded == NotImage then Saved(NotAnImg, [])
    else if a.hash.Err? then Saved(DhErr, [])
    else
      var dh := Identifier(lib, a.hash.value);
      match Match(lib, m, dh, force, samediff)
      case Some(name) => Saved(Exist, name)
      case None =>
        if !a.createOk then Saved(IoErr, [])
        else if a.decoded == Image && !a.encodeOk then Saved(EncErr, [])
        else if a.decoded == WebpImage && !a.copyOk then Saved(IoErr, [])
        else Saved(Success, dh)
  }

  /**
   * A forced save of an image that was just saved and indexed returns "exist"
   * with the image's own identifier.
   */
  lemma ForcedResaveFindsItself(lib: Library, m: Images, a: Attempt, force: bool, samediff: int)
    requires SaveDefined(lib, m, a, force, samediff)
    requires Decide(lib, m, a, force, samediff).status == Success
    ensures SaveDefined(lib, Added(m, Decide(lib, m, a, force, samediff).name), a, true, samediff)
    ensures Decide(lib, Added(m, Decide(lib, m, a, force, samediff).name), a, true, samediff)
         == Saved(Exist, Decide(lib, m, a, force, samediff).name)
  {
  }

  /** A scan that reached every name without a match still has no match once one more comparable name follows. */
  lemma {:induction false} ScanSafeExtend(lib: Library, dh: Bytes, names: seq<Bytes>, x: Bytes, samediff: int)
    requires ScanSafe(lib, dh, names, samediff) && FirstSimilar(lib, dh, names, samediff).None?
    requires Decodable(lib, dh) && Decodable(lib, x)
    ensures ScanSafe(lib, dh, names + [x], samediff)
    decreases |names|
  {
    if names == [] {
      assert names + [x] == [x];
      assert [x][1..] == [];
    } else {
      assert (names + [x])[1..] == names[1..] + [x];
      ScanSafeExtend(lib, dh, names[1..], x, samediff);
    }
  }

  /**
   * Similarity dedup across two saves: once the image with hash x is saved and
   * indexed, a later save of an image with hash y that matched nothing before
   * returns "exist" with x's identifier exactly when the two hashes lie within
   * the threshold, and otherwise decides as before.
   */
  lemma SimilarAfterSave(lib: Library, m: Images, x: Uint64, b: Attempt, samediff: int)
    requires DecodesBack(lib, x) && b.decoded != NotImage && b.hash.Ok? && DecodesBack(lib, b.hash.value)
    requires Identifier(lib, x)[..3] != SumKey
    requires ScanSafe(lib, Identifier(lib, b.hash.value), Bucket(m, SumKey), samediff)
    requires FirstSimilar(lib, Identifier(lib, b.hash.value), Bucket(m, SumKey), samediff).None?
    ensures SaveDefined(lib, Added(m, Identifier(lib, x)), b, false, samediff)
    ensures Decide(lib, Added(m, Identifier(lib, x)), b, false, samediff)
         == if Distance(b.hash.value, x) <= samediff then Saved(Exist, Identifier(lib, x))
            else Decide(lib, m, b, false, samediff)
  {
    var idx := Identifier(lib, x);
    var idy := Identifier(lib, b.hash.value);
    var sum := Bucket(m, SumKey);
    IdentifierDistance(lib, b.hash.value, x);
    SumAfterAdd(m, idx);
    ScanSafeExtend(lib, idy, sum, idx, samediff);
    ScanSafeAppend(lib, idy, sum, idx, samediff);
  }

  // ---------------------------------------------------------------------------
  // The index object
  // ---------------------------------------------------------------------------

  /**
   * The index: storage.go's package-level `images` map, and the same map in
   * the `storage` type both storage variants embed.
   */
  class Index {
    var images: Images

    /** `make(map[string][]string)`. */
    constructor ()
      ensures images == map[]
    {
      images := map[];
    }

    /** `images["sum"]`. */
    function Sum(): (r: seq<Bytes>)
      reads this
      ensures SumKey in images ==> r == images[SumKey]
      ensures SumKey !in images ==> r == []
    {
      Bucket(images, SumKey)
    }

    /** `Imgexsits`: a read-only lookup of the tail in the bucket of the prefix. */
    method Exists(name: Bytes) returns (found: bool)
      requires |name| >= 3
      ensures found == InIndex(images, name)
    {
      var index := name[..3];
      var tail := name[3..];
      if index in images {
        var tails := images[index];
        found := false;
        var i := 0;
        while i < |tails|
          invariant 0 <= i <= |tails|
          invariant !found && tail !in tails[..i]
        {
          if tail == tails[i] {
            found := true;
            break;
          }
          assert tails[..i + 1] == tails[..i] + [tails[i]];
          i := i + 1;
        }
        assert !found ==> tails[..i] == tails;
        return found;
      }
      return false;
    }

    /** `Addimage`: appends unconditionally to the bucket of the prefix and to "sum". */
    method Add(name: Bytes)
      requires |name| >= 3
      modifies this
      ensures images == Added(old(images), name)
    {
      var index := name[..3];
      var tail := name[3..];
      if index !in images {
        images := images[index := []];
      }
      images := images[index := images[index] + [tail]];
      images := images[SumKey := Bucket(images, SumKey) + [name]];
    }

    /**
     * `Scanimgs` over the result of `os.ReadDir`: None is a listing error,
     * returned before anything is added.
     */
    method Scan(listing: Option<seq<DirEntry>>) returns (ok: bool)
      modifies this
      ensures ok == listing.Some?
      ensures images == if ok then AddedAll(old(images), Accepted(listing.value)) else old(images)
    {
      if listing.None? {
        return false;
      }
      var entries := listing.value;
      var i := 0;
      while i < |entries|
        invariant 0 <= i <= |entries|
        invariant images == AddedAll(old(images), Accepted(entries[..i]))
      {
        ScanStep(old(images), entries, i);
        ScanEntry(entries[i]);
        i := i + 1;
      }
      assert entries[..i] == entries;
      return true;
    }

    /** One entry of the listing: the filter, then `Addimage` on the stem. */
    method ScanEntry(e: DirEntry)
      modifies this
      ensures images == if !e.isDir && StemOf(e.name).Some? then Added(old(images), StemOf(e.name).value) else old(images)
    {
      if !e.isDir {
        var name := e.name;
        if HasSuffix(name, WebpSuffix) {
          name := name[..|name| - 5];
          if RuneCount(name) == 5 {
            Add(name);
          }
        }
      }
    }

    /**
     * `Pick(exclude)`: `draws` are the successive results of
     * `rand.Intn(len(sum))`, consumed one per call.
     */
    method Pick(exclude: seq<Bytes>, draws: seq<nat>) returns (r: Draw)
      requires DrawsBelow(draws, |Sum()|)
      ensures r == Choose(Sum(), exclude, draws)
    {
      var sum := Sum();
      var le := |exclude|;
      var ls := |sum|;
      if le >= ls {
        return NoName;
      } else if le == 0 {
        if |draws| == 0 {
          return OutOfDraws;
        }
        return Picked(sum[draws[0]]);
      } else if ls / le > 10 {
        r := PickByRejection(sum, exclude, draws);
      } else {
        r := PickFirstFit(sum, exclude);
      }
    }

    /**
     * `Saveimgbytes`: the decision pipeline over the package-level index. It
     * persists a new image but never adds its name to the index.
     */
    method SaveImgBytes(lib: Library, a: Attempt, force: bool, samediff: int) returns (r: Saved)
      requires SaveDefined(lib, images, a, force, samediff)
      ensures r == Decide(lib, images, a, force, samediff)
    {
      if a.decoded == NotImage {
        return Saved(NotAnImg, []);
      }
      var iswebp := a.decoded == WebpImage;
      var dh := GetDHashStr(lib, a.hash);
      if dh.Err? {
        return Saved(DhErr, []);
      }
      if force {
        var known := Exists(dh.value);
        if known {
          return Saved(Exist, dh.value);
        }
      } else {
        var similar := FindSimilar(lib, dh.value, Sum(), samediff);
        if similar.Some? {
          return Saved(Exist, similar.value);
        }
      }
      if !a.createOk {
        return Saved(IoErr, []);
      }
      if !iswebp {
        if !a.encodeOk {
          return Saved(EncErr, []);
        }
      } else {
        if !a.copyOk {
          return Saved(IoErr, []);
        }
      }
      return Saved(Success, dh.value);
    }

    /**
     * `Saveimg`: whatever one `Read` put into a zeroed 1 MiB buffer is saved
     * in similarity mode, and `a` describes that whole buffer. The read's
     * error is ignored, so reading never yields "ioerr".
     */
    method SaveImg(lib: Library, a: Attempt, samediff: int) returns (r: Saved)
      requires SaveDefined(lib, images, a, false, samediff)
      ensures r == Decide(lib, images, a, false, samediff)
    {
      r := SaveImgBytes(lib, a, false, samediff);
    }
  }

  /**
   * `Saveimgbytes` keeps no record of what it persisted: saving the same image
   * twice gives the same answer both times, so a "success" is never followed
   * by an "exist".
   */
  method SaveTwiceGlobal(idx: Index, lib: Library, a: Attempt, force: bool, samediff: int)
    returns (first: Saved, second: Saved)
    requires SaveDefined(lib, idx.images, a, force, samediff)
    ensures first == second == Decide(lib, idx.images, a, force, samediff)
  {
    first := idx.SaveImgBytes(lib, a, force, samediff);
    second := idx.SaveImgBytes(lib, a, force, samediff);
  }
}
