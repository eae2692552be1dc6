/** Image enumeration: `ListImages` and the content-file lookup of `readImageContent`. */
module Images {
  import opened Basics
  import opened Strings
  import opened Paths
  import opened Files
  import opened Records

  /** `<root>/image`. */
  function RepositoriesDir(root: string): string {
    JoinPath([root, RepositoriesDirName])
  }

  // ----- digests and content files -----

  /** The split at the top of `readImageContent`: a digest is accepted only
      when it has exactly two colon-separated fields, algorithm and hex. */
  function SplitDigest(digest: string): (r: Result<(string, string), Error>)
    ensures r.Success? <==> Count(digest, ':') == 1
    ensures r.Failure? ==> r.error == DigestFieldCount
    ensures r.Success? ==> r.value.0 + ":" + r.value.1 == digest && ':' !in r.value.0 && ':' !in r.value.1
  {
    var m := Split(digest, ':');
    if |m| != 2 then Failure(DigestFieldCount)
    else
      JoinSplit(digest, ':');
      JoinCons(m[0], [m[1]], ':');
      assert m == [m[0]] + [m[1]];
      Success((m[0], m[1]))
  }

  /** Every colon-free algorithm and hex pair is accepted back from its digest. */
  lemma SplitDigestRoundTrip(algo: string, hex: string)
    requires ':' !in algo && ':' !in hex
    ensures SplitDigest(algo + ":" + hex) == Success((algo, hex))
  {
    JoinCons(algo, [hex], ':');
    SplitJoin([algo, hex], ':');
  }

  /** `<storagedir>/imagedb/content/<algo>/<hex>`. */
  function ImageContentPath(storagedir: string, algo: string, hex: string): string {
    JoinPath([storagedir, "imagedb", "content", algo, hex])
  }

  /** `readImageContent`: split the digest, read the content file it names and
      decode it. `readImageContent`'s storage-name argument is only logged and
      is not a parameter here. */
  function ReadImageContent(fs: FileSystem, dec: Decoders, storagedir: string, digest: string): (r: Result<ImageContentSummary, Error>)
    ensures SplitDigest(digest).Failure? ==> r == Failure(DigestFieldCount)
    ensures r.Success? <==>
      && SplitDigest(digest).Success?
      && var file := ImageContentPath(storagedir, SplitDigest(digest).value.0, SplitDigest(digest).value.1);
         ReadFile(fs, file).Some? && dec.imageContent(ReadFile(fs, file).value).Some?
    ensures r.Success? ==>
      var file := ImageContentPath(storagedir, SplitDigest(digest).value.0, SplitDigest(digest).value.1);
      dec.imageContent(ReadFile(fs, file).value) == Some(r.value)
    ensures SplitDigest(digest).Success? ==>
      var file := ImageContentPath(storagedir, SplitDigest(digest).value.0, SplitDigest(digest).value.1);
      && (ReadFile(fs, file).None? ==> r == Failure(ReadingImageContent(file)))
      && (ReadFile(fs, file).Some? && dec.imageContent(ReadFile(fs, file).value).None? ==> r == Failure(UnmarshallingImageContent))
  {
    match SplitDigest(digest)
    case Failure(e) => Failure(e)
    case Success((algo, hex)) =>
      var file := ImageContentPath(storagedir, algo, hex);
      match ReadFile(fs, file)
      case None => Failure(ReadingImageContent(file))
      case Some(data) =>
        match dec.imageContent(data)
        case None => Failure(UnmarshallingImageContent)
        case Some(summary) => Success(summary)
  }

  /** The image the inner loop of `ListImages` appends for one reference: the
      creation time is filled in only for the `overlay2` storage and only when
      the content file can be read; a failure there never drops the image. */
  function EnrichedImage(fs: FileSystem, dec: Decoders, storagename: string, storagedir: string, key: string, digest: string): (img: Image)
    ensures img.name == key && img.digest == digest
    ensures img.createdAt.Some? <==> storagename == StorageOverlay2 && ReadImageContent(fs, dec, storagedir, digest).Success?
    ensures img.createdAt.Some? ==> img.createdAt.value == ReadImageContent(fs, dec, storagedir, digest).value.created
  {
    var created :=
      if storagename == StorageOverlay2 then
        match ReadImageContent(fs, dec, storagedir, digest)
        case Failure(_) => None
        case Success(summary) => Some(summary.created)
      else None;
    Image(key, digest, created)
  }

  // ----- storage directories -----

  /** One storage directory under `<root>/image` with its decoded repositories file. */
  datatype Storage = Storage(name: string, dir: string, repositories: map<string, map<string, string>>)

  /** Reading and decoding `<storagedir>/repositories.json`; either failure is fatal to the listing. */
  function LoadStorage(fs: FileSystem, dec: Decoders, storagedir: string): (r: Result<Storage, Error>)
    ensures var file := JoinPath([storagedir, RepositoriesFileName]);
      && (ReadFile(fs, file).None? ==> r == Failure(ReadingRepositoryFile(file)))
      && (ReadFile(fs, file).Some? && dec.imageRepository(ReadFile(fs, file).value).None? ==>
            r == Failure(UnmarshallingRepositoryFile(file)))
      && (r.Success? <==> ReadFile(fs, file).Some? && dec.imageRepository(ReadFile(fs, file).value).Some?)
      && (r.Success? ==> r.value == Storage(Base(storagedir), storagedir,
                                            dec.imageRepository(ReadFile(fs, file).value).value.repositories))
  {
    var file := JoinPath([storagedir, RepositoriesFileName]);
    match ReadFile(fs, file)
    case None => Failure(ReadingRepositoryFile(file))
    case Some(data) =>
      match dec.imageRepository(data)
      case None => Failure(UnmarshallingRepositoryFile(file))
      case Some(repo) => Success(Storage(Base(storagedir), storagedir, repo.repositories))
  }

  /** The storages of `dirs` in order, or the first error met. */
  function LoadStorages(fs: FileSystem, dec: Decoders, dirs: seq<string>): (r: Result<seq<Storage>, Error>)
    ensures r.Success? <==> forall i :: 0 <= i < |dirs| ==> LoadStorage(fs, dec, dirs[i]).Success?
    ensures r.Success? ==>
      && |r.value| == |dirs|
      && forall i :: 0 <= i < |dirs| ==> Success(r.value[i]) == LoadStorage(fs, dec, dirs[i])
    decreases |dirs|
  {
    if |dirs| == 0 then Success([])
    else
      var prefix := dirs[..|dirs| - 1];
      assert forall i :: 0 <= i < |prefix| ==> prefix[i] == dirs[i];
      var loaded := LoadStorages(fs, dec, prefix);
      var last := LoadStorage(fs, dec, dirs[|dirs| - 1]);
      if loaded.Failure? then Failure(loaded.error)
      else if last.Failure? then Failure(last.error)
      else
        assert forall i :: 0 <= i < |prefix| ==> (loaded.value + [last.value])[i] == loaded.value[i];
        Success(loaded.value + [last.value])
  }

  /** A storage directory under `<root>/image` whose `repositories.json`
      cannot be read or decoded fails the whole load, whatever the other
      storage directories hold. */
  lemma BadRepositoriesFileFailsListing(fs: FileSystem, dec: Decoders, root: string, i: nat)
    requires i < |Glob(fs, RepositoriesDir(root))|
    requires var file := JoinPath([Glob(fs, RepositoriesDir(root))[i], RepositoriesFileName]);
      ReadFile(fs, file).None? || dec.imageRepository(ReadFile(fs, file).value).None?
    ensures LoadStorages(fs, dec, Glob(fs, RepositoriesDir(root))).Failure?
  {
    var dirs := Glob(fs, RepositoriesDir(root));
    assert LoadStorage(fs, dec, dirs[i]).Failure?;
  }

  /** A failed load reports the error of the first directory that fails. */
  lemma {:induction false} LoadFailureIsFirst(fs: FileSystem, dec: Decoders, dirs: seq<string>)
    requires LoadStorages(fs, dec, dirs).Failure?
    ensures exists i :: (&& 0 <= i < |dirs|
                         && (forall j :: 0 <= j < i ==> LoadStorage(fs, dec, dirs[j]).Success?)
                         && LoadStorage(fs, dec, dirs[i]) == Failure(LoadStorages(fs, dec, dirs).error))
  {
    var prefix := dirs[..|dirs| - 1];
    var e := LoadStorages(fs, dec, dirs).error;
    if LoadStorages(fs, dec, prefix).Failure? {
      LoadFailureIsFirst(fs, dec, prefix);
      var i :| && 0 <= i < |prefix|
               && (forall j :: 0 <= j < i ==> LoadStorage(fs, dec, prefix[j]).Success?)
               && LoadStorage(fs, dec, prefix[i]) == Failure(e);
      assert forall j :: 0 <= j <= i ==> prefix[j] == dirs[j];
    } else {
      var i := |dirs| - 1;
      assert forall j :: 0 <= j < i ==> prefix[j] == dirs[j];
      assert LoadStorage(fs, dec, dirs[i]) == Failure(e);
    }
  }

  /** Once a prefix of the storage directories fails, the whole load fails with that error. */
  lemma {:induction false} LoadFailurePersists(fs: FileSystem, dec: Decoders, dirs: seq<string>, n: nat)
    requires n <= |dirs|
    requires LoadStorages(fs, dec, dirs[..n]).Failure?
    ensures LoadStorages(fs, dec, dirs) == LoadStorages(fs, dec, dirs[..n])
    decreases |dirs| - n
  {
    if n < |dirs| {
      assert dirs[..|dirs| - 1][..n] == dirs[..n];
      LoadFailurePersists(fs, dec, dirs[..|dirs| - 1], n);
    } else {
      assert dirs[..n] == dirs;
    }
  }

  // ----- flattening -----

  /** One inner entry of one repositories map: storage index, repository name and reference. */
  datatype EntryRef = EntryRef(storage: nat, repository: string, key: string)

  ghost predicate InStorage(s: Storage, ref: EntryRef) {
    ref.repository in s.repositories && ref.key in s.repositories[ref.repository]
  }

  /** The image `ListImages` appends for the entry `ref` of storage `s`. */
  function ImageOf(fs: FileSystem, dec: Decoders, s: Storage, ref: EntryRef): Image
    requires ref.repository in s.repositories && ref.key in s.repositories[ref.repository]
  {
    EnrichedImage(fs, dec, s.name, s.dir, ref.key, s.repositories[ref.repository][ref.key])
  }

  /** `imgs` lists the entries `refs` of the storages `ss`: one image per
      entry, every entry exactly once, storages in order, and each image the
      (possibly enriched) image of its entry. */
  ghost predicate Flattened(fs: FileSystem, dec: Decoders, ss: seq<Storage>, imgs: seq<Image>, refs: seq<EntryRef>) {
    && |imgs| == |refs|
    && (forall j :: 0 <= j < |refs| ==>
          refs[j].storage < |ss| && InStorage(ss[refs[j].storage], refs[j])
          && imgs[j] == ImageOf(fs, dec, ss[refs[j].storage], refs[j]))
    && NoDuplicates(refs)
    && (forall ref: EntryRef :: ref.storage < |ss| && InStorage(ss[ref.storage], ref) ==> ref in refs)
    && (forall j, j' :: 0 <= j < j' < |refs| ==> refs[j].storage <= refs[j'].storage)
  }

  lemma NoDuplicatesAppend<T>(a: seq<T>, b: seq<T>)
    requires NoDuplicates(a) && NoDuplicates(b)
    requires forall i, j :: 0 <= i < |a| && 0 <= j < |b| ==> a[i] != b[j]
    ensures NoDuplicates(a + b)
  {
    forall i, j | 0 <= i < j < |a + b|
      ensures (a + b)[i] != (a + b)[j]
    {
      if j < |a| {
        assert (a + b)[i] == a[i] && (a + b)[j] == a[j];
      } else if i < |a| {
        assert (a + b)[i] == a[i] && (a + b)[j] == b[j - |a|];
      } else {
        assert (a + b)[i] == b[i - |a|] && (a + b)[j] == b[j - |a|];
      }
    }
  }

  /** The inner loop of `ListImages` for one repository: one image per
      reference, in the unspecified order of a Go map iteration. */
  method FlattenRepository(fs: FileSystem, dec: Decoders, s: Storage, k: nat, repo: string)
    returns (imgs: seq<Image>, ghost refs: seq<EntryRef>)
    requires repo in s.repositories
    ensures |imgs| == |s.repositories[repo].Keys|
    ensures |imgs| == |refs|
    ensures forall j :: 0 <= j < |refs| ==>
      refs[j].storage == k && refs[j].repository == repo && InStorage(s, refs[j])
      && imgs[j] == ImageOf(fs, dec, s, refs[j])
    ensures NoDuplicates(refs)
    ensures forall key :: key in s.repositories[repo] ==> EntryRef(k, repo, key) in refs
  {
    var names := s.repositories[repo];
    var remaining := names.Keys;
    imgs, refs := [], [];
    while remaining != {}
      invariant remaining <= names.Keys
      invariant |imgs| + |remaining| == |names.Keys|
      invariant |imgs| == |refs|
      invariant forall j :: 0 <= j < |refs| ==>
        refs[j].storage == k && refs[j].repository == repo && refs[j].key in names
        && refs[j].key !in remaining && imgs[j] == ImageOf(fs, dec, s, refs[j])
      invariant NoDuplicates(refs)
      invariant forall key :: key in names && key !in remaining ==> EntryRef(k, repo, key) in refs
      decreases remaining
    {
      var key :| key in remaining;
      imgs := imgs + [EnrichedImage(fs, dec, s.name, s.dir, key, names[key])];
      refs := refs + [EntryRef(k, repo, key)];
      remaining := remaining - {key};
    }
  }

  /** `imgs` lists, once each, exactly the entries of the repositories `done`
      of storage `s`, the `k`-th storage. */
  ghost predicate StorageListed(fs: FileSystem, dec: Decoders, s: Storage, k: nat,
                                done: set<string>, imgs: seq<Image>, refs: seq<EntryRef>) {
    && |imgs| == |refs|
    && (forall j :: 0 <= j < |refs| ==>
          refs[j].storage == k && InStorage(s, refs[j]) && refs[j].repository in done
          && imgs[j] == ImageOf(fs, dec, s, refs[j]))
    && NoDuplicates(refs)
    && (forall ref: EntryRef :: ref.storage == k && InStorage(s, ref) && ref.repository in done ==> ref in refs)
  }

  /** Appending the images of one more repository extends the listing to it. */
  lemma StorageStep(fs: FileSystem, dec: Decoders, s: Storage, k: nat, done: set<string>,
                    imgs: seq<Image>, refs: seq<EntryRef>, repo: string, more: seq<Image>, moreRefs: seq<EntryRef>)
    requires StorageListed(fs, dec, s, k, done, imgs, refs)
    requires repo in s.repositories && repo !in done
    requires |more| == |moreRefs|
    requires forall j :: 0 <= j < |moreRefs| ==>
      moreRefs[j].storage == k && moreRefs[j].repository == repo && InStorage(s, moreRefs[j])
      && more[j] == ImageOf(fs, dec, s, moreRefs[j])
    requires NoDuplicates(moreRefs)
    requires forall key :: key in s.repositories[repo] ==> EntryRef(k, repo, key) in moreRefs
    ensures StorageListed(fs, dec, s, k, done + {repo}, imgs + more, refs + moreRefs)
  {
    NoDuplicatesAppend(refs, moreRefs);
    forall j | 0 <= j < |refs + moreRefs|
      ensures (refs + moreRefs)[j].storage == k && InStorage(s, (refs + moreRefs)[j])
      ensures (refs + moreRefs)[j].repository in done + {repo}
      ensures (imgs + more)[j] == ImageOf(fs, dec, s, (refs + moreRefs)[j])
    {
      if j >= |refs| {
        assert (refs + moreRefs)[j] == moreRefs[j - |refs|];
      }
    }
    forall ref: EntryRef | ref.storage == k && InStorage(s, ref) && ref.repository in done + {repo}
      ensures ref in refs + moreRefs
    {
      if ref.repository == repo {
        assert ref == EntryRef(k, repo, ref.key);
      }
    }
  }

  /** The two nested loops of `ListImages` for one storage directory. */
  method FlattenStorage(fs: FileSystem, dec: Decoders, s: Storage, k: nat)
    returns (imgs: seq<Image>, ghost refs: seq<EntryRef>)
    ensures |imgs| == |refs|
    ensures forall j :: 0 <= j < |refs| ==>
      refs[j].storage == k && InStorage(s, refs[j]) && imgs[j] == ImageOf(fs, dec, s, refs[j])
    ensures NoDuplicates(refs)
    ensures forall ref: EntryRef :: ref.storage == k && InStorage(s, ref) ==> ref in refs
  {
    var remaining := s.repositories.Keys;
    imgs, refs := [], [];
    while remaining != {}
      invariant remaining <= s.repositories.Keys
      invariant StorageListed(fs, dec, s, k, s.repositories.Keys - remaining, imgs, refs)
      decreases remaining
    {
      var repo :| repo in remaining;
      var more, moreRefs := FlattenRepository(fs, dec, s, k, repo);
      StorageStep(fs, dec, s, k, s.repositories.Keys - remaining, imgs, refs, repo, more, moreRefs);
      imgs := imgs + more;
      refs := refs + moreRefs;
      remaining := remaining - {repo};
    }
  }

  /** Adding the entries of the next storage keeps the listing flattened. */
  lemma FlattenedExtend(fs: FileSystem, dec: Decoders, ss: seq<Storage>, imgs: seq<Image>, refs: seq<EntryRef>,
                        s: Storage, more: seq<Image>, moreRefs: seq<EntryRef>)
    requires Flattened(fs, dec, ss, imgs, refs)
    requires |more| == |moreRefs|
    requires forall j :: 0 <= j < |moreRefs| ==>
      moreRefs[j].storage == |ss| && InStorage(s, moreRefs[j]) && more[j] == ImageOf(fs, dec, s, moreRefs[j])
    requires NoDuplicates(moreRefs)
    requires forall ref: EntryRef :: ref.storage == |ss| && InStorage(s, ref) ==> ref in moreRefs
    ensures Flattened(fs, dec, ss + [s], imgs + more, refs + moreRefs)
  {
    var ss' := ss + [s];
    NoDuplicatesAppend(refs, moreRefs);
    forall j | 0 <= j < |refs + moreRefs|
      ensures (refs + moreRefs)[j].storage < |ss'|
      ensures InStorage(ss'[(refs + moreRefs)[j].storage], (refs + moreRefs)[j])
      ensures (imgs + more)[j] == ImageOf(fs, dec, ss'[(refs + moreRefs)[j].storage], (refs + moreRefs)[j])
    {
      if j < |refs| {
        assert ss'[refs[j].storage] == ss[refs[j].storage];
      } else {
        assert (refs + moreRefs)[j] == moreRefs[j - |refs|];
      }
    }
    forall ref: EntryRef | ref.storage < |ss'| && InStorage(ss'[ref.storage], ref)
      ensures ref in refs + moreRefs
    {
      if ref.storage < |ss| {
        assert ss'[ref.storage] == ss[ref.storage];
        assert ref in refs;
      } else {
        assert ref in moreRefs;
      }
    }
  }

  /** `ListImages`: one image per inner (reference, digest) entry of every
      storage directory's repositories map. A missing `<root>/image` is an
      error, and so is any unreadable or malformed repositories file. */
  method ListImages(fs: FileSystem, dec: Decoders, root: string)
    returns (r: Result<seq<Image>, Error>, ghost refs: seq<EntryRef>)
    ensures !Exists(fs, RepositoriesDir(root)) ==> r == Failure(RepositoriesDirNotFound(RepositoriesDir(root)))
    ensures Exists(fs, RepositoriesDir(root)) ==>
      var loaded := LoadStorages(fs, dec, Glob(fs, RepositoriesDir(root)));
      && (r.Failure? <==> loaded.Failure?)
      && (r.Failure? ==> r.error == loaded.error)
    ensures Exists(fs, RepositoriesDir(root)) && r.Success? ==>
      var loaded := LoadStorages(fs, dec, Glob(fs, RepositoriesDir(root)));
      loaded.Success? && Flattened(fs, dec, loaded.value, r.value, refs)
  {
    var dir := RepositoriesDir(root);
    if !Exists(fs, dir) {
      return Failure(RepositoriesDirNotFound(dir)), [];
    }
    var storagedirs := Glob(fs, dir);
    var images: seq<Image> := [];
    refs := [];
    ghost var ss: seq<Storage> := [];
    var k := 0;
    assert storagedirs[..0] == [];
    while k < |storagedirs|
      invariant 0 <= k <= |storagedirs|
      invariant LoadStorages(fs, dec, storagedirs[..k]) == Success(ss)
      invariant |ss| == k
      invariant Flattened(fs, dec, ss, images, refs)
    {
      var prefix := storagedirs[..k + 1];
      assert prefix[..|prefix| - 1] == storagedirs[..k];
      assert prefix[|prefix| - 1] == storagedirs[k];
      var loaded := LoadStorage(fs, dec, storagedirs[k]);
      if loaded.Failure? {
        LoadFailurePersists(fs, dec, storagedirs, k + 1);
        return Failure(loaded.error), [];
      }
      var more, moreRefs := FlattenStorage(fs, dec, loaded.value, k);
      FlattenedExtend(fs, dec, ss, images, refs, loaded.value, more, moreRefs);
      images := images + more;
      refs := refs + moreRefs;
      ss := ss + [loaded.value];
      k := k + 1;
    }
    assert storagedirs[..k] == storagedirs;
    return Success(images), refs;
  }
}
