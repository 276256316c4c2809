/** The file cache of the camera filesystem: files whose picture data is cached hang in one doubly linked
    list, least recently used first, and the front is pruned when too many hold data. */
module FileCaches {
  import opened Options

  datatype FileType = Preview | Normal | Raw | Audio | Exif | Metadata

  /** Content handle of a cached file. */
  type Content = nat

  class CacheFile {
    var lruPrev: CacheFile?
    var lruNext: CacheFile?
    var cached: map<FileType, Content>

    constructor (cached: map<FileType, Content>)
      ensures lruPrev == null && lruNext == null && this.cached == cached
    {
      lruPrev, lruNext := null, null;
      this.cached := cached;
    }

    /** Holds data worth pruning. */
    predicate HoldsPicture()
      reads this
    {
      Normal in cached || Raw in cached || Audio in cached
    }
  }

  /** Links of one item; the first item's back link points to itself, which marks it as listed. */
  ghost predicate LinkedAt(list: seq<CacheFile>, i: nat)
    requires i < |list|
    reads list
  {
    && list[i].lruPrev == (if i == 0 then list[0] else list[i - 1])
    && list[i].lruNext == (if i + 1 < |list| then list[i + 1] else null)
  }

  ghost predicate Linked(list: seq<CacheFile>)
    reads list
  {
    && (forall i, j :: 0 <= i < j < |list| ==> list[i] != list[j])
    && (forall i :: 0 <= i < |list| ==> LinkedAt(list, i))
  }

  /** Number of list entries that hold picture data. */
  ghost function Holding(list: seq<CacheFile>): nat
    reads list
  {
    if list == [] then 0 else (if list[0].HoldsPicture() then 1 else 0) + Holding(list[1..])
  }

  /** Files that hold picture data. */
  ghost function Holders(files: set<CacheFile>): set<CacheFile>
    reads files
  {
    set f | f in files && f.HoldsPicture()
  }

  ghost function Position(list: seq<CacheFile>, item: CacheFile): (k: nat)
    requires item in list
    ensures k < |list| && list[k] == item
  {
    if list[0] == item then 0 else 1 + Position(list[1..], item)
  }

  ghost function Without(list: seq<CacheFile>, item: CacheFile): (r: seq<CacheFile>)
    ensures item !in list ==> r == list
  {
    if item !in list then list else Cut(list, Position(list, item))
  }

  ghost function Cut(list: seq<CacheFile>, k: nat): seq<CacheFile>
    requires k < |list|
  {
    list[..k] + list[k + 1..]
  }

  class FileCache {
    var lruFirst: CacheFile?
    var lruLast: CacheFile?
    var picturesToKeep: int
    ghost var list: seq<CacheFile>
    ghost var files: set<CacheFile>
    /** Files uploaded and not stored in the cache since. */
    ghost var uploaded: set<CacheFile>

    /** `files` are the files of the folder tree; a file is listed exactly when its back link is set. */
    ghost predicate Valid()
      reads this, files, list
    {
      && (forall f :: f in list ==> f in files)
      && Linked(list)
      && lruFirst == (if list == [] then null else list[0])
      && lruLast == (if list == [] then null else list[|list| - 1])
      && forall f :: f in files && f !in list ==> f.lruPrev == null && f.lruNext == null
    }

    /** The files that hold picture data outside the list are exactly the uploaded ones. */
    ghost predicate Accounted()
      reads this, files
    {
      uploaded <= files && forall f :: f in files ==> AccountedFor(f)
    }

    ghost predicate AccountedFor(f: CacheFile)
      reads this, f
    {
      f in uploaded <==> f !in list && f.HoldsPicture()
    }

    constructor ()
      ensures Valid() && Accounted() && list == [] && files == uploaded == {} && picturesToKeep == -1
    {
      lruFirst, lruLast, picturesToKeep := null, null, -1;
      list, files, uploaded := [], {}, {};
    }

    /** gp_filesystem_lru_check: in every reachable state the list passes. */
    method Check() returns (ok: bool)
      requires Valid()
      ensures ok
    {
      var ptr, prev := lruFirst, lruFirst;
      ghost var n := 0;
      while ptr != null
        invariant 0 <= n <= |list| && ptr == (if n < |list| then list[n] else null)
        invariant prev == (if list == [] then null else if n == 0 then list[0] else list[n - 1])
        decreases |list| - n
      {
        assert LinkedAt(list, n);
        if ptr.lruPrev != prev {
          return false;
        }
        prev, ptr, n := ptr, ptr.lruNext, n + 1;
      }
      ok := true;
    }

    /** gp_filesystem_lru_count */
    method Count() returns (count: nat)
      requires Valid()
      ensures count == Holding(list)
    {
      count := 0;
      var ptr := lruFirst;
      ghost var n := 0;
      while ptr != null
        invariant 0 <= n <= |list| && ptr == (if n < |list| then list[n] else null)
        invariant count + Holding(list[n..]) == Holding(list)
        decreases |list| - n
      {
        assert LinkedAt(list, n);
        if ptr.HoldsPicture() {
          count := count + 1;
        }
        assert list[n..][1..] == list[n + 1..];
        ptr, n := ptr.lruNext, n + 1;
      }
      assert list[n..] == [];
    }

    /** The back link tells whether a file is listed. */
    lemma ListedIff(item: CacheFile)
      requires Valid() && item in files
      ensures item in list <==> item.lruPrev != null
    {
      if item in list {
        assert LinkedAt(list, Position(list, item));
      }
    }

    /** gp_filesystem_lru_remove_one: false for a file that is not listed. */
    method RemoveOne(item: CacheFile) returns (ok: bool)
      requires Valid() && item in files
      modifies this`lruFirst, this`lruLast, this`list, files
      ensures Valid() && files == old(files)
      ensures ok <==> item in old(list)
      ensures list == Without(old(list), item)
      ensures forall f :: f in files ==> f.cached == old(f.cached)
    {
      hide Linked;
      ListedIff(item);
      if item.lruPrev == null {
        return false;
      }
      ghost var k := Position(list, item);
      Unlink(item, k);
      list := list[..k] + list[k + 1..];
      ok := true;
    }

    method Unlink(item: CacheFile, ghost k: nat)
      requires Valid() && k < |list| && list[k] == item
      modifies this`lruFirst, this`lruLast, files
      ensures forall f :: f in files ==> f.cached == old(f.cached)
      ensures var rest := list[..k] + list[k + 1..];
        && Linked(rest) && item !in rest
        && lruFirst == (if rest == [] then null else rest[0])
        && lruLast == (if rest == [] then null else rest[|rest| - 1])
        && forall f :: f in files && f !in rest ==> f.lruPrev == null && f.lruNext == null
    {
      Detach(item, k);
      ghost var rest := list[..k] + list[k + 1..];
      forall i | 0 <= i < |rest| ensures LinkedAt(rest, i) {
        assert old(LinkedAt(list, if i < k then i else i + 1));
      }
    }

    /** The link updates of a removal, for the item at position `k`. */
    method Detach(item: CacheFile, ghost k: nat)
      requires Valid() && k < |list| && list[k] == item
      modifies this`lruFirst, this`lruLast, files
      ensures item.lruPrev == null && item.lruNext == null
      ensures forall f :: f in files ==> f.cached == old(f.cached)
      ensures forall f :: f in files && f != item && !(k > 0 && f == list[k - 1]) ==> f.lruNext == old(f.lruNext)
      ensures forall f :: f in files && f != item && !(k + 1 < |list| && f == list[k + 1]) ==> f.lruPrev == old(f.lruPrev)
      ensures k > 0 ==> list[k - 1].lruNext == if k + 1 < |list| then list[k + 1] else null
      ensures k + 1 < |list| ==> list[k + 1].lruPrev == if k > 0 then list[k - 1] else list[k + 1]
      ensures lruFirst == if k > 0 then list[0] else if |list| > 1 then list[1] else null
      ensures lruLast == if k + 1 < |list| then list[|list| - 1] else if |list| > 1 then list[k - 1] else null
    {
      hide Linked;
      Neighbours(k);
      item.lruPrev.lruNext := item.lruNext;
      if item.lruNext != null {
        item.lruNext.lruPrev := item.lruPrev;
      }
      if lruLast == item {
        if lruFirst == item {
          lruLast, lruFirst := null, null;
        } else {
          lruLast := item.lruPrev;
        }
      } else if lruFirst == item {
        lruFirst := item.lruNext;
        lruFirst.lruPrev := lruFirst;
      }
      item.lruPrev, item.lruNext := null, null;
    }

    /** What is around position `k`. */
    lemma Neighbours(k: nat)
      requires Valid() && k < |list|
      ensures LinkedAt(list, k)
      ensures k > 0 ==> list[k - 1] != list[k] && list[0] != list[k]
      ensures k + 1 < |list| ==> list[k + 1] != list[k] && list[|list| - 1] != list[k]
      ensures 0 < k && k + 1 < |list| ==> list[k - 1] != list[k + 1]
    {
    }

    /** gp_filesystem_lru_free: the front leaves the list and loses its picture data. */
    method Free()
      requires Valid() && list != []
      modifies this`lruFirst, this`lruLast, this`list, files
      ensures Valid() && files == old(files) && list == old(list)[1..]
      ensures old(list)[0] !in list && !old(list)[0].HoldsPicture() && (old(Accounted()) ==> Accounted())
      ensures old(list)[0].cached == old(list[0].cached) - {Normal, Raw, Audio}
      ensures forall f :: f in files && f != old(list)[0] ==> f.cached == old(f.cached)
    {
      ghost var was := list;
      assert LinkedAt(was, 0);
      var ptr := lruFirst;
      lruFirst := ptr.lruNext;
      if lruFirst != null {
        lruFirst.lruPrev := lruFirst;
      } else {
        lruLast := null;
      }
      ptr.cached := ptr.cached - {Normal, Raw, Audio};
      ptr.lruNext, ptr.lruPrev := null, null;
      list := was[1..];
      forall i | 0 <= i < |list| ensures LinkedAt(list, i) {
        assert old(LinkedAt(was, i + 1));
      }
    }

    /** The pruning loop: entries are freed from the front until at most `keep` hold data. */
    method Prune(keep: nat)
      requires Valid()
      modifies this`lruFirst, this`lruLast, this`list, files
      ensures Valid() && files == old(files) && Holding(list) <= keep
      ensures exists n :: 0 <= n <= |old(list)| && list == old(list)[n..]
      ensures forall f :: f in files && f in list ==> f.cached == old(f.cached)
      ensures forall f :: f in old(list) && f !in list ==> !f.HoldsPicture()
      ensures forall f :: f in files && f !in old(list) ==> f.cached == old(f.cached)
      ensures old(Accounted()) ==> Accounted()
    {
      hide Linked;
      var x := Count();
      ghost var n := 0;
      while x > keep
        invariant Valid() && files == old(files) && x == Holding(list)
        invariant 0 <= n <= |old(list)| && list == old(list)[n..]
        invariant forall f :: f in files && f in list ==> f.cached == old(f.cached)
        invariant forall f :: f in old(list) && f !in list ==> !f.HoldsPicture()
        invariant forall f :: f in files && f !in old(list) ==> f.cached == old(f.cached)
        invariant old(Accounted()) ==> Accounted()
        decreases |list|
      {
        Free();
        assert old(list)[n..][1..] == old(list)[n + 1..];
        n := n + 1;
        x := Count();
      }
    }

    /** gp_filesystem_lru_clear: every link is reset; the integrity test on the way never fails. */
    method Clear() returns (ok: bool)
      requires Valid()
      modifies this`lruFirst, this`lruLast, this`list, files
      ensures ok && Valid() && files == old(files) && list == []
      ensures forall f :: f in files ==> f.cached == old(f.cached)
    {
      var ptr, prev := lruFirst, lruFirst;
      ghost var was, n := list, 0;
      while ptr != null
        invariant list == was && files == old(files)
        invariant 0 <= n <= |was| && ptr == (if n < |was| then was[n] else null)
        invariant prev == (if was == [] then null else if n == 0 then was[0] else was[n - 1])
        invariant forall i :: n <= i < |was| ==> LinkedAt(was, i)
        invariant forall i :: 0 <= i < n ==> was[i].lruPrev == null && was[i].lruNext == null
        invariant forall f :: f in files && f !in was ==> f.lruPrev == null && f.lruNext == null
        invariant forall f :: f in files ==> f.cached == old(f.cached)
        decreases |was| - n
      {
        assert LinkedAt(was, n);
        if ptr.lruPrev != prev {
          return false;
        }
        prev, ptr := ptr, ptr.lruNext;
        label Before:
        prev.lruPrev, prev.lruNext := null, null;
        forall i | n < i < |was| ensures LinkedAt(was, i) {
          assert old@Before(LinkedAt(was, i));
        }
        n := n + 1;
      }
      lruFirst, lruLast := null, null;
      list := [];
      ok := true;
    }

    /** The file joins the list at its end. */
    method Append(item: CacheFile)
      requires Valid() && item in files && item !in list
      modifies this`lruFirst, this`lruLast, this`list, files
      ensures Valid() && files == old(files) && list == old(list) + [item]
      ensures forall f :: f in files ==> f.cached == old(f.cached)
    {
      ghost var was := list;
      if lruFirst == null {
        lruFirst, lruLast := item, item;
        item.lruPrev := item;
      } else {
        assert LinkedAt(was, |was| - 1);
        item.lruNext := null;
        item.lruPrev := lruLast;
        lruLast.lruNext := item;
        lruLast := item;
      }
      list := was + [item];
      forall i | 0 <= i < |list| ensures LinkedAt(list, i) {
        if i < |was| {
          assert old(LinkedAt(was, i));
        }
      }
    }

    /** The setting is asked for while nothing has been kept from it. */
    static function Keep(picturesToKeep: int, setting: Option<int>): nat {
      if picturesToKeep >= 0 then picturesToKeep
      else if picturesToKeep == -1 && setting.Some? && setting.value >= 0 then setting.value
      else 2
    }

    /** The default is stored as a setting where there is none yet. */
    static function Default(picturesToKeep: int, setting: Option<int>): Option<int> {
      if picturesToKeep == -1 && setting == None then Some(2) else None
    }

    /** How many pictures to keep: the setting if there is one and it is not negative, else two. */
    method PicturesToKeep(setting: Option<int>) returns (keep: nat, stored: Option<int>)
      modifies this`picturesToKeep
      ensures keep == picturesToKeep == Keep(old(picturesToKeep), setting)
      ensures stored == Default(old(picturesToKeep), setting)
    {
      stored := None;
      if picturesToKeep == -1 {
        if setting.Some? {
          picturesToKeep := setting.value;
        } else {
          stored := Some(2);
        }
      }
      if picturesToKeep < 0 {
        picturesToKeep := 2;
      }
      keep := picturesToKeep;
    }

    /** gp_filesystem_lru_update: prune, then move the file to the end of the list. */
    method Update(item: CacheFile, setting: Option<int>) returns (stored: Option<int>)
      requires Valid() && Accounted() && item in files
      modifies this`lruFirst, this`lruLast, this`list, this`picturesToKeep, this`uploaded, files
      ensures Valid() && files == old(files) && picturesToKeep == Keep(old(picturesToKeep), setting)
      ensures stored == Default(old(picturesToKeep), setting)
      ensures list != [] && list[|list| - 1] == item && item !in list[..|list| - 1]
      ensures Holding(list[..|list| - 1]) <= picturesToKeep
      ensures uploaded == old(uploaded) - {item} && forall f :: f in files && f != item ==> AccountedFor(f)
      ensures forall f :: f in files && f !in old(list) ==> f.cached == old(f.cached)
    {
      hide Linked, Without, Holding, CacheFile.HoldsPicture;
      var keep;
      keep, stored := PicturesToKeep(setting);
      Prune(keep);
      Relist(item);
    }

    /** The second half: the file, whether uploaded or listed before, is at the end of the list. */
    method Relist(item: CacheFile)
      requires Valid() && Accounted() && item in files
      modifies this`lruFirst, this`lruLast, this`list, this`uploaded, files
      ensures Valid() && files == old(files)
      ensures list != [] && list[|list| - 1] == item && item !in list[..|list| - 1]
      ensures Holding(list[..|list| - 1]) <= old(Holding(list))
      ensures uploaded == old(uploaded) - {item} && forall f :: f in files && f != item ==> AccountedFor(f)
      ensures forall f :: f in files ==> f.cached == old(f.cached)
    {
      hide Linked, Without, Holding, CacheFile.HoldsPicture;
      ghost var rest := Without(list, item);
      MoveToEnd(item);
      assert list[..|list| - 1] == rest;
      uploaded := uploaded - {item};
    }

    /** Taking the file out of the list, if it is in it, and appending it. */
    method MoveToEnd(item: CacheFile)
      requires Valid() && item in files
      modifies this`lruFirst, this`lruLast, this`list, files
      ensures Valid() && files == old(files) && list == Without(old(list), item) + [item]
      ensures item !in Without(old(list), item) && forall f :: f in list && f != item ==> f in old(list)
      ensures forall f :: f in old(list) ==> f in list
      ensures forall f :: f in files && f != item && old(AccountedFor(f)) ==> AccountedFor(f)
      ensures forall f :: f in files ==> f.cached == old(f.cached)
      ensures Holding(Without(old(list), item)) <= old(Holding(list))
    {
      hide Without;
      ghost var before := list;
      ListedIff(item);
      WithoutMembers(before, item);
      WithoutKeeps(before, item);
      HoldingWithout(before, item);
      if item.lruPrev != null {
        var _ := RemoveOne(item);
      }
      Append(item);
      SameHolding(Without(before, item));
    }

    /** gp_filesystem_set_file_noop, as far as the cache goes. */
    method SetFile(item: CacheFile, kind: FileType, content: Content, setting: Option<int>)
      returns (ok: bool, stored: Option<int>)
      requires Valid() && Accounted() && item in files
      modifies this`lruFirst, this`lruLast, this`list, this`picturesToKeep, this`uploaded, files
      ensures ok && Valid() && Accounted() && files == old(files)
      ensures kind in item.cached && item.cached[kind] == content
      ensures kind in {Normal, Raw, Audio} ==>
        && list != [] && list[|list| - 1] == item && picturesToKeep == Keep(old(picturesToKeep), setting)
        && stored == Default(old(picturesToKeep), setting) && Holding(list) <= picturesToKeep + 1
      ensures kind !in {Normal, Raw, Audio} ==> list == old(list) && stored == None
      ensures uploaded == if kind in {Normal, Raw, Audio} then old(uploaded) - {item} else old(uploaded)
      ensures forall f :: f in files && f != item && f !in old(list) ==> f.cached == old(f.cached)
    {
      hide Linked, Without, CacheFile.HoldsPicture, Holding;
      stored := None;
      if kind == Raw || kind == Normal || kind == Audio {
        stored := Update(item, setting);
      }
      ok := Check();
      if ok {
        Store(item, kind, content);
      }
    }

    method Store(item: CacheFile, kind: FileType, content: Content)
      requires Valid() && item in files
      modifies files
      ensures Valid()
      ensures item.cached == old(item.cached)[kind := content]
      ensures forall f :: f in files && f != item ==> f.cached == old(f.cached)
      ensures forall f :: f in files && f != item && old(AccountedFor(f)) ==> AccountedFor(f)
      ensures kind !in {Normal, Raw, Audio} && old(AccountedFor(item)) ==> AccountedFor(item)
      ensures list != [] && list[|list| - 1] == item && item !in list[..|list| - 1] ==>
        Holding(list) <= old(Holding(list[..|list| - 1])) + 1
    {
      item.cached := item.cached[kind := content];
      forall i | 0 <= i < |list| ensures LinkedAt(list, i) {
        assert old(LinkedAt(list, i));
      }
      if list != [] && list[|list| - 1] == item && item !in list[..|list| - 1] {
        ghost var rest := list[..|list| - 1];
        SameHolding(rest);
        assert list == rest + [item];
        HoldingAppend(rest, item);
      }
    }

    /** append_file: an uploaded file enters the tree with its data, outside the list. */
    method AppendFile(content: Content) returns (file: CacheFile)
      requires Valid() && Accounted()
      modifies this`files, this`uploaded
      ensures Valid() && Accounted() && fresh(file) && file.cached == map[Normal := content]
      ensures files == old(files) + {file} && uploaded == old(uploaded) + {file} && file !in old(uploaded)
    {
      file := new CacheFile(map[Normal := content]);
      files, uploaded := files + {file}, uploaded + {file};
    }

    /** A file found in a listing enters the tree without data. */
    method ListFile() returns (file: CacheFile)
      requires Valid() && Accounted()
      modifies this`files
      ensures Valid() && Accounted() && fresh(file) && file.cached == map[] && files == old(files) + {file}
    {
      file := new CacheFile(map[]);
      files := files + {file};
    }

    /** delete_file and each round of delete_all_files: the file leaves the list before it is freed. */
    method DeleteFile(file: CacheFile)
      requires Valid() && Accounted() && file in files
      modifies this`lruFirst, this`lruLast, this`list, this`files, this`uploaded, files
      ensures Valid() && Accounted() && files == old(files) - {file} && list == Without(old(list), file)
      ensures uploaded == old(uploaded) - {file}
      ensures forall f :: f in files ==> f.cached == old(f.cached)
    {
      ghost var was := list;
      var _ := RemoveOne(file);
      WithoutMembers(was, file);
      WithoutKeeps(was, file);
      file.cached := map[];
      files, uploaded := files - {file}, uploaded - {file};
    }

    /** gp_filesystem_reset, as far as the cache goes: the list is cleared and all files are deleted. */
    method Reset() returns (ok: bool)
      requires Valid()
      modifies this`lruFirst, this`lruLast, this`list, this`files, this`uploaded, files
      ensures ok && Valid() && Accounted() && files == {} && list == []
    {
      ok := Clear();
      files, uploaded := {}, {};
    }

    lemma WithoutMembers(s: seq<CacheFile>, item: CacheFile)
      requires forall i, j :: 0 <= i < j < |s| ==> s[i] != s[j]
      ensures item !in Without(s, item) && forall f :: f in Without(s, item) ==> f in s
    {
    }

    /** The files that hold picture data are those of the list and the uploaded ones, so the bound on list entries
        bounds the files exactly if the uploaded ones fit in what the list leaves. */
    lemma HoldersCounted(keep: nat)
      requires Valid() && Accounted()
      ensures |Holders(files)| == Holding(list) + |uploaded|
      ensures |Holders(files)| <= keep + 1 <==> |uploaded| <= keep + 1 - Holding(list)
    {
      var listed := set f | f in list && f.HoldsPicture();
      HoldingIsCount(list);
      assert Holders(files) == listed + uploaded && listed !! uploaded;
    }
  }

  lemma {:induction false} HoldingIsCount(s: seq<CacheFile>)
    requires forall i, j :: 0 <= i < j < |s| ==> s[i] != s[j]
    ensures Holding(s) == |set f | f in s && f.HoldsPicture()|
  {
    if s != [] {
      HoldingIsCount(s[1..]);
      var rest := set f | f in s[1..] && f.HoldsPicture();
      assert s == [s[0]] + s[1..];
      assert (set f | f in s && f.HoldsPicture()) == if s[0].HoldsPicture() then rest + {s[0]} else rest;
    }
  }

  /** Two more uploads than pictures to keep, and one picture from the device: the list is in bounds, the files are not. */
  method UploadsOverflow(keep: nat, content: Content) returns (cache: FileCache)
    ensures cache.Valid() && cache.picturesToKeep == keep
    ensures Holding(cache.list) <= keep + 1 && |Holders(cache.files)| >= keep + 2
  {
    hide *;
    cache := new FileCache();
    for i := 0 to keep + 2
      invariant cache.Valid() && cache.Accounted() && fresh(cache) && fresh(cache.files)
      invariant cache.list == [] && cache.picturesToKeep == -1 && |cache.uploaded| == i
    {
      var _ := cache.AppendFile(content);
    }
    var file := cache.ListFile();
    var _, _ := cache.SetFile(file, Normal, content, Some(keep));
    cache.HoldersCounted(keep);
    KeepsSetting(keep);
  }

  lemma KeepsSetting(keep: nat)
    ensures FileCache.Keep(-1, Some(keep)) == keep
  {
  }

  lemma {:induction false} HoldingAppend(s: seq<CacheFile>, item: CacheFile)
    ensures Holding(s + [item]) == Holding(s) + if item.HoldsPicture() then 1 else 0
    decreases s
  {
    if s == [] {
      assert s + [item] == [item];
    } else {
      HoldingAppend(s[1..], item);
      assert (s + [item])[1..] == s[1..] + [item];
    }
  }

  lemma WithoutFirst(s: seq<CacheFile>, item: CacheFile)
    requires item in s
    ensures s[0] == item ==> Without(s, item) == s[1..]
    ensures s[0] != item ==> Without(s, item) == [s[0]] + Without(s[1..], item)
  {
    PositionNext(s, item);
    CutFirst(s, Position(s, item));
    hide Position, Cut;
  }

  lemma PositionNext(s: seq<CacheFile>, item: CacheFile)
    requires item in s
    ensures s[0] == item ==> Position(s, item) == 0
    ensures s[0] != item ==> item in s[1..] && Position(s, item) == 1 + Position(s[1..], item)
  {
  }

  lemma CutFirst(s: seq<CacheFile>, k: nat)
    requires k < |s|
    ensures k == 0 ==> Cut(s, k) == s[1..]
    ensures k > 0 ==> Cut(s, k) == [s[0]] + Cut(s[1..], k - 1)
  {
    if k > 0 {
      assert s[..k] == [s[0]] + s[1..][..k - 1];
      assert s[k + 1..] == s[1..][k..];
    }
  }

  lemma {:induction false} WithoutKeeps(s: seq<CacheFile>, item: CacheFile)
    ensures forall f :: f in s && f != item ==> f in Without(s, item)
  {
    hide Without;
    if item in s {
      WithoutFirst(s, item);
      assert s == [s[0]] + s[1..];
      if s[0] != item {
        WithoutKeeps(s[1..], item);
      }
    }
  }

  lemma HoldingCons(first: CacheFile, rest: seq<CacheFile>)
    ensures Holding([first] + rest) == (if first.HoldsPicture() then 1 else 0) + Holding(rest)
  {
    assert ([first] + rest)[1..] == rest;
  }

  lemma {:induction false} HoldingWithout(s: seq<CacheFile>, item: CacheFile)
    ensures Holding(Without(s, item)) <= Holding(s)
    decreases s
  {
    hide Without, Holding;
    if item in s {
      WithoutFirst(s, item);
      HoldingCons(s[0], s[1..]);
      assert s == [s[0]] + s[1..];
      if s[0] != item {
        HoldingWithout(s[1..], item);
        HoldingCons(s[0], Without(s[1..], item));
      }
    }
  }

  twostate lemma SameHolding(s: seq<CacheFile>)
    requires forall f :: f in s ==> f.cached == old(f.cached)
    ensures Holding(s) == old(Holding(s))
    decreases s
  {
    if s != [] {
      SameHolding(s[1..]);
    }
  }
}
