/** The directory cache of the camera filesystem. Folders are cached as they are looked up: a folder whose
    subfolders or files have not been listed is dirty in that respect, and is listed when it is needed. */
module FolderCaches {

  /** Path components from the root. */
  type Path = seq<string>

  datatype Entry = Entry(filesDirty: bool, foldersDirty: bool, files: seq<string>, folders: seq<string>)

  /** A folder nothing is known about. */
  const FRESH := Entry(true, true, [], [])

  /** What the device holds in a folder. */
  datatype Listing = Listing(files: seq<string>, folders: seq<string>)

  predicate Distinct(s: seq<string>) {
    forall i, j :: 0 <= i < j < |s| ==> s[i] != s[j]
  }

  ghost predicate SameNames(s: seq<string>, t: seq<string>) {
    forall n :: n in s <==> n in t
  }

  ghost predicate Among(s: seq<string>, t: seq<string>) {
    forall n :: n in s ==> n in t
  }

  ghost predicate DistinctNames(device: map<Path, Listing>) {
    forall p :: p in device ==> Distinct(device[p].files) && Distinct(device[p].folders)
  }

  ghost predicate ChildrenExist(device: map<Path, Listing>) {
    forall p, c :: p in device && c in device[p].folders ==> p + [c] in device
  }

  ghost predicate ParentsList(device: map<Path, Listing>) {
    forall p :: p in device && p != [] ==> Parent(p) in device && Name(p) in device[Parent(p)].folders
  }

  /** A device tree: distinct names, and a folder exists exactly when its parent lists it. */
  ghost predicate DeviceTree(device: map<Path, Listing>) {
    [] in device && DistinctNames(device) && ChildrenExist(device) && ParentsList(device)
  }

  function Parent(p: Path): Path
    requires p != []
  {
    p[..|p| - 1]
  }

  function Name(p: Path): string
    requires p != []
  {
    p[|p| - 1]
  }

  ghost predicate ChildrenCached(tree: map<Path, Entry>) {
    forall p, c :: p in tree && c in tree[p].folders ==> p + [c] in tree
  }

  ghost predicate ParentsCached(tree: map<Path, Entry>) {
    forall p :: p in tree && p != [] ==> Parent(p) in tree && Name(p) in tree[Parent(p)].folders
  }

  /** The cached tree has the same shape. */
  ghost predicate CachedTree(tree: map<Path, Entry>) {
    [] in tree && ChildrenCached(tree) && ParentsCached(tree)
  }

  /** What is cached exists; what is clean is complete. */
  ghost predicate Faithful(e: Entry, l: Listing) {
    && Distinct(e.files) && Distinct(e.folders)
    && Among(e.files, l.files) && Among(e.folders, l.folders)
    && (!e.filesDirty ==> SameNames(e.files, l.files))
    && (!e.foldersDirty ==> SameNames(e.folders, l.folders))
  }

  ghost predicate AllFaithful(tree: map<Path, Entry>, device: map<Path, Listing>) {
    forall p :: p in tree ==> p in device && Faithful(tree[p], device[p])
  }

  ghost predicate Coherent(tree: map<Path, Entry>, device: map<Path, Listing>) {
    DeviceTree(device) && CachedTree(tree) && AllFaithful(tree, device)
  }

  /** `q` lies below `p`. */
  predicate Below(p: Path, q: Path) {
    p < q
  }

  /** The tree without everything below `p`. */
  function Pruned(tree: map<Path, Entry>, p: Path): (r: map<Path, Entry>)
    requires p in tree
    ensures p in r && r[p] == tree[p].(folders := [])
    ensures forall q :: q in r <==> q in tree && !Below(p, q)
    ensures forall q :: q in r && q != p ==> r[q] == tree[q]
  {
    (map q | q in tree && !Below(p, q) :: tree[q])[p := tree[p].(folders := [])]
  }

  lemma ChildPath(p: Path, name: string)
    ensures var q := p + [name]; q != p && Parent(q) == p && Name(q) == name
  {
  }

  lemma BelowParent(p: Path, q: Path)
    requires q != []
    ensures Below(p, q) <==> Parent(q) == p || Below(p, Parent(q))
  {
    if p <= Parent(q) {
      assert p == Parent(q) || p < Parent(q);
    }
  }

  lemma PrunedCoherent(tree: map<Path, Entry>, device: map<Path, Listing>, p: Path)
    requires Coherent(tree, device) && p in tree && tree[p].foldersDirty
    ensures Coherent(Pruned(tree, p), device)
  {
    hide DeviceTree, Below;
    PrunedTree(tree, p);
    var r := Pruned(tree, p);
    assert Faithful(r[p], device[p]);
    forall q | q in r ensures q in device && Faithful(r[q], device[q]) {
    }
  }

  lemma PrunedTree(tree: map<Path, Entry>, p: Path)
    requires CachedTree(tree) && p in tree
    ensures CachedTree(Pruned(tree, p))
  {
    hide Below, Parent, Name;
    var r := Pruned(tree, p);
    BelowRoot(p);
    forall q, c | q in r && c in r[q].folders ensures q + [c] in r {
      ChildPath(q, c);
      BelowParent(p, q + [c]);
    }
    forall q | q in r && q != [] ensures Parent(q) in r && Name(q) in r[Parent(q)].folders {
      BelowParent(p, q);
    }
  }

  lemma BelowRoot(p: Path)
    ensures !Below(p, []) && !Below(p, p)
  {
  }

  /** append_folder_one */
  function Grown(tree: map<Path, Entry>, p: Path, name: string): (r: map<Path, Entry>)
    requires p in tree
    ensures r.Keys == tree.Keys + {p + [name]} && r[p + [name]] == FRESH
    ensures r[p] == tree[p].(folders := [name] + tree[p].folders)
    ensures forall q :: q in tree && q != p && q != p + [name] ==> r[q] == tree[q]
  {
    ChildPath(p, name);
    tree[p := tree[p].(folders := [name] + tree[p].folders)][p + [name] := FRESH]
  }

  lemma NotCached(tree: map<Path, Entry>, p: Path, name: string)
    requires CachedTree(tree) && p in tree && name !in tree[p].folders
    ensures p + [name] !in tree
  {
    ChildPath(p, name);
  }

  lemma GrownTree(tree: map<Path, Entry>, p: Path, name: string)
    requires CachedTree(tree) && p in tree && name !in tree[p].folders
    ensures CachedTree(Grown(tree, p, name))
  {
    hide Grown, Parent, Name;
    var r, q := Grown(tree, p, name), p + [name];
    ChildPath(p, name);
    NotCached(tree, p, name);
    forall x, c | x in r && c in r[x].folders ensures x + [c] in r {
      if x == p && c == name {
      } else {
        assert x in tree && c in tree[x].folders;
      }
    }
    forall x | x in r && x != [] ensures Parent(x) in r && Name(x) in r[Parent(x)].folders {
      if x != q {
        assert Name(x) in tree[Parent(x)].folders;
      }
    }
  }

  lemma GrownCoherent(tree: map<Path, Entry>, device: map<Path, Listing>, p: Path, name: string)
    requires Coherent(tree, device) && p in tree && tree[p].foldersDirty
    requires name in device[p].folders && name !in tree[p].folders
    ensures Coherent(Grown(tree, p, name), device)
  {
    hide Grown, CachedTree, DeviceTree, Faithful;
    var r, q := Grown(tree, p, name), p + [name];
    GrownTree(tree, p, name);
    ChildPath(p, name);
    OneMoreFolder(tree[p], device[p], name);
    ChildOnDevice(device, p, name);
    FreshIsFaithful(device[q]);
    forall x | x in r ensures x in device && Faithful(r[x], device[x]) {
    }
  }

  lemma ChildOnDevice(device: map<Path, Listing>, p: Path, name: string)
    requires DeviceTree(device) && p in device && name in device[p].folders
    ensures p + [name] in device
  {
  }

  lemma OneMoreFolder(e: Entry, l: Listing, name: string)
    requires Faithful(e, l) && e.foldersDirty && name in l.folders && name !in e.folders
    ensures Faithful(e.(folders := [name] + e.folders), l)
  {
  }

  lemma FreshIsFaithful(l: Listing)
    ensures Faithful(FRESH, l)
  {
  }

  /** One folder's cached entry and device listing change; its subfolders do not. */
  lemma EntryReplaced(tree: map<Path, Entry>, device: map<Path, Listing>, p: Path, e: Entry, l: Listing)
    requires Coherent(tree, device) && p in tree && e.folders == tree[p].folders && l.folders == device[p].folders
    requires Distinct(l.files) && Faithful(e, l)
    ensures Coherent(tree[p := e], device[p := l])
  {
    hide Faithful, CachedTree, DeviceTree;
    CachedReplaced(tree, p, e);
    DeviceReplaced(device, p, l);
    var t, d := tree[p := e], device[p := l];
    forall q | q in t ensures q in d && Faithful(t[q], d[q]) {
    }
  }

  lemma CachedReplaced(tree: map<Path, Entry>, p: Path, e: Entry)
    requires CachedTree(tree) && p in tree && e.folders == tree[p].folders
    ensures CachedTree(tree[p := e])
  {
    hide Parent, Name;
    var t := tree[p := e];
    forall q, c | q in t && c in t[q].folders ensures q + [c] in t {
      assert c in tree[q].folders;
    }
  }

  lemma DeviceReplaced(device: map<Path, Listing>, p: Path, l: Listing)
    requires DeviceTree(device) && p in device && l.folders == device[p].folders && Distinct(l.files)
    ensures DeviceTree(device[p := l])
  {
    hide Parent, Name, Distinct;
    var d := device[p := l];
    DistinctFolders(device, p);
    forall q, c | q in d && c in d[q].folders ensures q + [c] in d {
      assert c in device[q].folders;
    }
  }

  lemma DistinctFolders(device: map<Path, Listing>, p: Path)
    requires DeviceTree(device) && p in device
    ensures Distinct(device[p].files) && Distinct(device[p].folders)
  {
  }

  /** A folder on the device can be reached from the root. */
  lemma {:induction false} DevicePrefix(device: map<Path, Listing>, p: Path, k: nat)
    requires DeviceTree(device) && p in device && k <= |p|
    ensures p[..k] in device
    ensures k < |p| ==> p[k] in device[p[..k]].folders
    decreases |p| - k
  {
    hide Distinct;
    if k == |p| {
      assert p[..k] == p;
    } else {
      DevicePrefix(device, p, k + 1);
      var q := p[..k + 1];
      assert Parent(q) == p[..k] && Name(q) == p[k];
    }
  }

  /** A new, empty folder on the device. */
  function WithFolder(device: map<Path, Listing>, p: Path, name: string): (d: map<Path, Listing>)
    requires p in device
    ensures d.Keys == device.Keys + {p + [name]} && d[p + [name]] == Listing([], [])
    ensures d[p] == device[p].(folders := device[p].folders + [name])
    ensures forall q :: q in device && q != p && q != p + [name] ==> d[q] == device[q]
  {
    ChildPath(p, name);
    device[p := device[p].(folders := device[p].folders + [name])][p + [name] := Listing([], [])]
  }

  lemma WithFolderTree(device: map<Path, Listing>, p: Path, name: string)
    requires DeviceTree(device) && p in device && name !in device[p].folders
    ensures p + [name] !in device && DeviceTree(WithFolder(device, p, name))
  {
    hide WithFolder, ChildrenExist, ParentsList;
    NotOnDevice(device, p, name);
    WithFolderChildren(device, p, name);
    WithFolderParents(device, p, name);
  }

  lemma NotOnDevice(device: map<Path, Listing>, p: Path, name: string)
    requires ParentsList(device) && p in device && name !in device[p].folders
    ensures p + [name] !in device
  {
    ChildPath(p, name);
  }

  lemma WithFolderChildren(device: map<Path, Listing>, p: Path, name: string)
    requires ChildrenExist(device) && p in device && p + [name] !in device
    ensures ChildrenExist(WithFolder(device, p, name))
  {
    hide WithFolder;
    var d := WithFolder(device, p, name);
    ChildPath(p, name);
    forall x, c | x in d && c in d[x].folders ensures x + [c] in d {
      if x != p || c != name {
        assert x in device && c in device[x].folders;
      }
    }
  }

  lemma WithFolderParents(device: map<Path, Listing>, p: Path, name: string)
    requires DeviceTree(device) && p in device && p + [name] !in device
    ensures ParentsList(WithFolder(device, p, name))
  {
    hide WithFolder, Parent, Name, DeviceTree;
    forall x | x in WithFolder(device, p, name) && x != []
      ensures var d := WithFolder(device, p, name); Parent(x) in d && Name(x) in d[Parent(x)].folders
    {
      ParentInWithFolder(device, p, name, x);
    }
  }

  lemma ParentInWithFolder(device: map<Path, Listing>, p: Path, name: string, x: Path)
    requires DeviceTree(device) && p in device && p + [name] !in device && x != []
    requires x in device || x == p + [name]
    ensures var d := WithFolder(device, p, name); Parent(x) in d && Name(x) in d[Parent(x)].folders
  {
    hide WithFolder, Parent, Name, Distinct;
    ChildPath(p, name);
    if x in device {
      assert Name(x) in device[Parent(x)].folders;
    }
  }

  /** Making a folder on the device and in the cache. */
  lemma MadeCoherent(tree: map<Path, Entry>, device: map<Path, Listing>, p: Path, name: string)
    requires Coherent(tree, device) && p in tree && name !in device[p].folders
    ensures name !in tree[p].folders && Coherent(Grown(tree, p, name), WithFolder(device, p, name))
  {
    hide Grown, WithFolder, CachedTree, DeviceTree;
    assert Faithful(tree[p], device[p]);
    WithFolderTree(device, p, name);
    GrownTree(tree, p, name);
    ChildPath(p, name);
    var t, d, q := Grown(tree, p, name), WithFolder(device, p, name), p + [name];
    assert Faithful(t[p], d[p]) && Faithful(FRESH, d[q]);
    forall x | x in t ensures x in d && Faithful(t[x], d[x]) {
    }
  }

  function CacheWithout(tree: map<Path, Entry>, p: Path, name: string): (t: map<Path, Entry>)
    requires p in tree
    ensures t.Keys == tree.Keys - {p + [name]} && t[p] == tree[p].(folders := Remove(tree[p].folders, name))
    ensures forall q :: q in tree && q != p && q != p + [name] ==> t[q] == tree[q]
  {
    ChildPath(p, name);
    (tree - {p + [name]})[p := tree[p].(folders := Remove(tree[p].folders, name))]
  }

  function DeviceWithout(device: map<Path, Listing>, p: Path, name: string): (d: map<Path, Listing>)
    requires p in device
    ensures d.Keys == device.Keys - {p + [name]} && d[p] == device[p].(folders := Remove(device[p].folders, name))
    ensures forall q :: q in device && q != p && q != p + [name] ==> d[q] == device[q]
  {
    ChildPath(p, name);
    (device - {p + [name]})[p := device[p].(folders := Remove(device[p].folders, name))]
  }

  lemma CacheWithoutTree(tree: map<Path, Entry>, p: Path, name: string)
    requires CachedTree(tree) && p in tree && p + [name] in tree && tree[p + [name]].folders == []
    ensures CachedTree(CacheWithout(tree, p, name))
  {
    hide CacheWithout, ChildrenCached, ParentsCached;
    ChildPath(p, name);
    CacheWithoutChildren(tree, p, name);
    CacheWithoutParents(tree, p, name);
  }

  lemma CacheWithoutChildren(tree: map<Path, Entry>, p: Path, name: string)
    requires CachedTree(tree) && p in tree
    ensures ChildrenCached(CacheWithout(tree, p, name))
  {
    hide CacheWithout, Parent, Name, CachedTree;
    forall x, c | x in CacheWithout(tree, p, name) && c in CacheWithout(tree, p, name)[x].folders
      ensures x + [c] in CacheWithout(tree, p, name)
    {
      ChildInCacheWithout(tree, p, name, x, c);
    }
  }

  lemma CacheWithoutParents(tree: map<Path, Entry>, p: Path, name: string)
    requires CachedTree(tree) && p in tree && p + [name] in tree && tree[p + [name]].folders == []
    ensures ParentsCached(CacheWithout(tree, p, name))
  {
    hide CacheWithout, Parent, Name, CachedTree;
    forall x | x in CacheWithout(tree, p, name) && x != []
      ensures var t := CacheWithout(tree, p, name); Parent(x) in t && Name(x) in t[Parent(x)].folders
    {
      ParentInCacheWithout(tree, p, name, x);
    }
  }

  lemma ChildInCacheWithout(tree: map<Path, Entry>, p: Path, name: string, x: Path, c: string)
    requires CachedTree(tree) && p in tree && x in tree && x != p + [name] && c in CacheWithout(tree, p, name)[x].folders
    ensures x + [c] in CacheWithout(tree, p, name)
  {
    hide CacheWithout, Parent, Name;
    ChildPath(p, name);
    ChildPath(x, c);
    SamePath(x + [c], p, name);
    assert c in tree[x].folders;
  }

  lemma ParentInCacheWithout(tree: map<Path, Entry>, p: Path, name: string, x: Path)
    requires CachedTree(tree) && p in tree && p + [name] in tree && tree[p + [name]].folders == []
    requires x in tree && x != [] && x != p + [name]
    ensures var t := CacheWithout(tree, p, name); Parent(x) in t && Name(x) in t[Parent(x)].folders
  {
    hide CacheWithout, Parent, Name;
    ChildPath(p, name);
    SamePath(x, p, name);
    assert Name(x) in tree[Parent(x)].folders;
  }

  lemma SamePath(x: Path, p: Path, name: string)
    requires x != []
    ensures x == p + [name] <==> Parent(x) == p && Name(x) == name
  {
    assert x == Parent(x) + [Name(x)];
  }

  lemma DeviceWithoutTree(device: map<Path, Listing>, p: Path, name: string)
    requires DeviceTree(device) && p in device && p + [name] in device && device[p + [name]].folders == []
    ensures DeviceTree(DeviceWithout(device, p, name))
  {
    hide DeviceWithout, DistinctNames, ChildrenExist, ParentsList;
    ChildPath(p, name);
    DeviceWithoutDistinct(device, p, name);
    DeviceWithoutLinks(device, p, name);
  }

  lemma DeviceWithoutDistinct(device: map<Path, Listing>, p: Path, name: string)
    requires DistinctNames(device) && p in device
    ensures DistinctNames(DeviceWithout(device, p, name))
  {
    hide DeviceWithout, Distinct;
    var d := DeviceWithout(device, p, name);
    RemoveDistinct(device[p].folders, name);
    forall x | x in d ensures Distinct(d[x].files) && Distinct(d[x].folders) {
      assert x in device;
    }
  }

  lemma DeviceWithoutLinks(device: map<Path, Listing>, p: Path, name: string)
    requires DeviceTree(device) && p in device && p + [name] in device && device[p + [name]].folders == []
    ensures ChildrenExist(DeviceWithout(device, p, name)) && ParentsList(DeviceWithout(device, p, name))
  {
    hide DeviceWithout, Parent, Name, DeviceTree;
    forall x, c | x in DeviceWithout(device, p, name) && c in DeviceWithout(device, p, name)[x].folders
      ensures x + [c] in DeviceWithout(device, p, name)
    {
      ChildInDeviceWithout(device, p, name, x, c);
    }
    forall x | x in DeviceWithout(device, p, name) && x != []
      ensures var d := DeviceWithout(device, p, name); Parent(x) in d && Name(x) in d[Parent(x)].folders
    {
      ParentInDeviceWithout(device, p, name, x);
    }
  }

  lemma ChildInDeviceWithout(device: map<Path, Listing>, p: Path, name: string, x: Path, c: string)
    requires DeviceTree(device) && p in device && x in device && x != p + [name]
    requires c in DeviceWithout(device, p, name)[x].folders
    ensures x + [c] in DeviceWithout(device, p, name)
  {
    hide DeviceWithout, Parent, Name, Distinct;
    ChildPath(p, name);
    ChildPath(x, c);
    SamePath(x + [c], p, name);
    assert c in device[x].folders;
  }

  lemma ParentInDeviceWithout(device: map<Path, Listing>, p: Path, name: string, x: Path)
    requires DeviceTree(device) && p in device && p + [name] in device && device[p + [name]].folders == []
    requires x in device && x != [] && x != p + [name]
    ensures var d := DeviceWithout(device, p, name); Parent(x) in d && Name(x) in d[Parent(x)].folders
  {
    hide DeviceWithout, Parent, Name, Distinct;
    ChildPath(p, name);
    SamePath(x, p, name);
    assert Name(x) in device[Parent(x)].folders;
  }

  lemma AmongNone(s: seq<string>)
    ensures Among(s, []) ==> s == []
  {
    if s != [] {
      assert s[0] in s && s[0] !in [];
    }
  }

  /** Removing an empty folder from the device and from the cache. */
  lemma RemovedCoherent(tree: map<Path, Entry>, device: map<Path, Listing>, p: Path, name: string)
    requires Coherent(tree, device) && p in tree && p + [name] in tree && device[p + [name]].folders == []
    ensures Coherent(CacheWithout(tree, p, name), DeviceWithout(device, p, name))
  {
    hide CacheWithout, DeviceWithout, CachedTree, DeviceTree;
    var q := p + [name];
    assert Faithful(tree[q], device[q]) && Faithful(tree[p], device[p]);
    AmongNone(tree[q].folders);
    CacheWithoutTree(tree, p, name);
    DeviceWithoutTree(device, p, name);
    ChildPath(p, name);
    RemoveDistinct(tree[p].folders, name);
    var t, d := CacheWithout(tree, p, name), DeviceWithout(device, p, name);
    assert Faithful(t[p], d[p]);
    forall x | x in t ensures x in d && Faithful(t[x], d[x]) {
    }
  }

  function Remove(s: seq<string>, n: string): (r: seq<string>)
    ensures forall x :: x in r <==> x in s && x != n
  {
    if s == [] then [] else (if s[0] == n then [] else [s[0]]) + Remove(s[1..], n)
  }

  lemma {:induction false} RemoveDistinct(s: seq<string>, n: string)
    requires Distinct(s)
    ensures Distinct(Remove(s, n))
  {
    if s != [] {
      RemoveDistinct(s[1..], n);
      if s[0] != n {
        assert forall x :: x in Remove(s[1..], n) ==> x in s[1..];
        assert s[0] !in s[1..];
        assert Remove(s, n) == [s[0]] + Remove(s[1..], n);
      }
    }
  }

  function RemoveAll(s: seq<string>, gone: set<string>): (r: seq<string>)
    ensures forall x :: x in r <==> x in s && x !in gone
  {
    if s == [] then [] else (if s[0] in gone then [] else [s[0]]) + RemoveAll(s[1..], gone)
  }

  lemma {:induction false} RemoveAllDistinct(s: seq<string>, gone: set<string>)
    requires Distinct(s)
    ensures Distinct(RemoveAll(s, gone))
  {
    if s != [] {
      RemoveAllDistinct(s[1..], gone);
      assert s[0] !in s[1..];
    }
  }

  class FolderCache {
    var tree: map<Path, Entry>
    var device: map<Path, Listing>

    ghost predicate Valid()
      reads this
    {
      Coherent(tree, device)
    }

    constructor (device: map<Path, Listing>)
      requires DeviceTree(device)
      ensures Valid() && this.device == device
    {
      this.device := device;
      tree := map[[] := FRESH];
    }

    /** Every folder above `path` is cached and its subfolders are listed. */
    ghost predicate Reached(path: Path)
      reads this
    {
      forall k :: 0 <= k < |path| ==> ReachedAt(path, k)
    }

    ghost predicate ReachedAt(path: Path, k: nat)
      requires k <= |path|
      reads this
    {
      path[..k] in tree && !tree[path[..k]].foldersDirty
    }

    /** lookup_folder: down from the root, listing every dirty folder on the way. */
    method Lookup(path: Path) returns (found: bool)
      requires Valid()
      modifies this`tree
      ensures Valid()
      ensures found <==> path in device
      ensures found ==> path in tree && Reached(path)
      ensures old(Reached(path)) ==> tree == old(tree)
      ensures found && !old(Reached(path)) ==> tree[path] == FRESH
      decreases |path|, 0
    {
      hide Coherent, DeviceTree, CachedTree, AllFaithful, Faithful;
      var k := 0;
      ghost var changed := false;
      RootCached();
      assert path[..0] == [];
      while k < |path|
        invariant 0 <= k <= |path| && Valid() && path[..k] in tree
        invariant forall i :: 0 <= i < k ==> ReachedAt(path, i)
        invariant if changed then !old(Reached(path)) && tree[path[..k]] == FRESH else tree == old(tree)
      {
        var folder := path[..k];
        if tree[folder].foldersDirty {
          assert !ReachedAt(path, k);
          CachedExists(folder);
          PrefixReached(path, k);
          var _, _ := ListFolders(folder);
          SamePrefixes(path, k);
          changed := true;
        }
        assert ReachedAt(path, k);
        NextOnDevice(path, k);
        if path[k] !in tree[folder].folders {
          return false;
        }
        assert path[..k + 1] == folder + [path[k]];
        k := k + 1;
      }
      assert path[..k] == path;
      CachedExists(path);
      found := true;
    }

    lemma SamePrefixes(path: Path, k: nat)
      requires k <= |path| && Reached(path[..k])
      ensures forall i :: 0 <= i < k ==> ReachedAt(path, i)
    {
      forall i | 0 <= i < k ensures ReachedAt(path, i) {
        assert ReachedAt(path[..k], i);
        assert path[..k][..i] == path[..i];
      }
    }

    lemma PrefixReached(path: Path, k: nat)
      requires k <= |path| && forall i :: 0 <= i < k ==> ReachedAt(path, i)
      ensures Reached(path[..k])
    {
      forall i | 0 <= i < k ensures ReachedAt(path[..k], i) {
        assert ReachedAt(path, i);
        assert path[..k][..i] == path[..i];
      }
    }

    lemma RootCached()
      requires Valid()
      ensures [] in tree
    {
    }

    lemma CachedExists(p: Path)
      requires Valid() && p in tree
      ensures p in device && Faithful(tree[p], device[p])
    {
    }

    /** In a listed folder, the next component is cached exactly when the device has it. */
    lemma NextOnDevice(path: Path, k: nat)
      requires Valid() && k < |path| && path[..k] in tree && !tree[path[..k]].foldersDirty
      ensures path[k] in tree[path[..k]].folders ==> path[..k] + [path[k]] in tree
      ensures path[k] !in tree[path[..k]].folders ==> path !in device
    {
      assert Faithful(tree[path[..k]], device[path[..k]]);
      if path in device {
        DevicePrefix(device, path, k);
      }
    }

    /** gp_filesystem_list_folders */
    method ListFolders(path: Path) returns (found: bool, names: seq<string>)
      requires Valid()
      modifies this`tree
      ensures Valid()
      ensures found <==> path in device
      ensures found ==> path in tree && !tree[path].foldersDirty && names == tree[path].folders
      ensures found ==> Distinct(names) && SameNames(names, device[path].folders)
      ensures found ==> Reached(path)
      ensures found && old(Reached(path)) && path in old(tree) && old(tree)[path].foldersDirty ==> AllFresh(path, names)
      decreases |path|, 1
    {
      hide Coherent, DeviceTree, CachedTree, AllFaithful, Distinct, Reached;
      names := [];
      found := Lookup(path);
      if !found {
        return;
      }
      if tree[path].foldersDirty {
        Refill(path);
      }
      CachedExists(path);
      MarkListed(path);
      names := tree[path].folders;
      CachedExists(path);
    }

    /** Nothing is known yet about these subfolders. */
    ghost predicate AllFresh(path: Path, names: seq<string>)
      reads this
    {
      forall c :: c in names ==> path + [c] in tree && tree[path + [c]] == FRESH
    }

    /** Dropping what is cached below the folder and entering the subfolders the device lists. */
    method Refill(path: Path)
      requires Valid() && path in tree && tree[path].foldersDirty
      modifies this`tree
      ensures Valid() && path in tree && SameNames(tree[path].folders, device[path].folders)
      ensures AllFresh(path, tree[path].folders)
      ensures old(Reached(path)) ==> Reached(path)
    {
      hide Coherent, DeviceTree, CachedTree, AllFaithful, Faithful, Grown;
      CachedExists(path);
      var list := device[path].folders;
      PrunedCoherent(tree, device, path);
      tree := Pruned(tree, path);
      PrefixesApart(path);
      forall k | 0 <= k < |path| && old(Reached(path)) ensures ReachedAt(path, k) {
        assert old(ReachedAt(path, k));
      }
      DeviceDistinct(path);
      var y := 0;
      while y < |list|
        invariant 0 <= y <= |list| && Valid() && path in tree && tree[path].foldersDirty
        invariant old(Reached(path)) ==> forall k :: 0 <= k < |path| ==> ReachedAt(path, k)
        invariant SameNames(tree[path].folders, list[..y]) && AllFresh(path, tree[path].folders)
      {
        assert list[y] !in list[..y];
        GrownCoherent(tree, device, path, list[y]);
        assert list[..y + 1] == list[..y] + [list[y]];
        label Before:
        tree := Grown(tree, path, list[y]);
        forall k | 0 <= k < |path| && old(Reached(path)) ensures ReachedAt(path, k) {
          assert old@Before(ReachedAt(path, k));
        }
        y := y + 1;
      }
      assert list[..y] == list;
    }

    /** The folders above `path` are neither `path` nor below it. */
    lemma PrefixesApart(path: Path)
      ensures forall k :: 0 <= k < |path| ==> path[..k] != path && !Below(path, path[..k])
      ensures forall k, name :: 0 <= k < |path| ==> path[..k] != path + [name]
    {
      forall k, name | 0 <= k < |path| ensures path[..k] != path + [name] {
        assert |path[..k]| < |path + [name]|;
      }
    }

    lemma DeviceDistinct(p: Path)
      requires Valid() && p in device
      ensures Distinct(device[p].folders) && Distinct(device[p].files)
    {
    }

    method MarkListed(path: Path)
      requires Valid() && path in tree && SameNames(tree[path].folders, device[path].folders)
      modifies this`tree
      ensures Valid() && path in tree && tree == old(tree)[path := old(tree)[path].(foldersDirty := false)]
      ensures old(Reached(path)) ==> Reached(path)
    {
      hide DeviceTree, CachedTree;
      CachedExists(path);
      DeviceDistinct(path);
      PrefixesApart(path);
      EntryReplaced(tree, device, path, tree[path].(foldersDirty := false), device[path]);
      assert device[path := device[path]] == device;
      tree := tree[path := tree[path].(foldersDirty := false)];
      forall k | 0 <= k < |path| && old(Reached(path)) ensures ReachedAt(path, k) {
        assert old(ReachedAt(path, k));
      }
    }

    /** The cached files of a folder change together with what the device holds there. */
    method SetFiles(path: Path, filesDirty: bool, files: seq<string>, onDevice: seq<string>)
      requires Valid() && path in tree && path in device && Distinct(files) && Distinct(onDevice) && Among(files, onDevice)
      requires !filesDirty ==> SameNames(files, onDevice)
      modifies this
      ensures Valid() && tree == old(tree)[path := old(tree[path]).(filesDirty := filesDirty, files := files)]
      ensures device == old(device)[path := old(device)[path].(files := onDevice)]
    {
      hide DeviceTree, CachedTree, Distinct;
      CachedExists(path);
      var e, l := tree[path].(filesDirty := filesDirty, files := files), device[path].(files := onDevice);
      EntryReplaced(tree, device, path, e, l);
      tree, device := tree[path := e], device[path := l];
    }

    /** gp_filesystem_list_files */
    method ListFiles(path: Path) returns (found: bool, names: seq<string>)
      requires Valid()
      modifies this
      ensures Valid() && device == old(device)
      ensures found <==> path in device
      ensures found ==> path in tree && !tree[path].filesDirty && names == tree[path].files
      ensures found ==> Distinct(names) && SameNames(names, device[path].files)
      ensures found ==> Reached(path)
    {
      hide Coherent, Faithful, Reached;
      names := [];
      found := Lookup(path);
      if !found {
        return;
      }
      if tree[path].filesDirty {
        FilesDoNotCount(path);
        Requery(path);
      }
      names := tree[path].files;
      ListedFiles(path);
    }

    /** The tree as it is when the files cached for a folder do not count. */
    ghost function WithoutFiles(path: Path): map<Path, Entry>
      requires path in tree
      reads this
    {
      tree[path := tree[path].(filesDirty := true, files := [])]
    }

    lemma FilesDoNotCount(path: Path)
      requires Valid() && path in tree
      ensures Coherent(WithoutFiles(path), device)
    {
      hide DeviceTree, CachedTree;
      CachedExists(path);
      DeviceDistinct(path);
      EntryReplaced(tree, device, path, tree[path].(filesDirty := true, files := []), device[path]);
      assert device[path := device[path]] == device;
    }

    /** Listing the files of a folder again; what was cached of them is dropped first. */
    method Requery(path: Path)
      requires path in tree && Coherent(WithoutFiles(path), device)
      modifies this`tree
      ensures Valid() && path in tree && !tree[path].filesDirty
      ensures tree == old(tree)[path := tree[path]] && tree[path].folders == old(tree)[path].folders
      ensures tree[path].foldersDirty == old(tree)[path].foldersDirty
      ensures old(Reached(path)) ==> Reached(path)
    {
      hide Coherent, Faithful, DeviceTree;
      InTree(WithoutFiles(path), device, path);
      var list, files, y := device[path].files, [], 0;
      while y < |list|
        invariant 0 <= y <= |list| && files == list[..y]
      {
        if list[y] !in files {
          files := files + [list[y]];
        }
        y := y + 1;
      }
      assert files == list;
      ghost var was := WithoutFiles(path);
      var e := Entry(false, tree[path].foldersDirty, list, tree[path].folders);
      Relisted(was[path], device[path], e);
      EntryReplaced(was, device, path, e, device[path]);
      assert device[path := device[path]] == device && was[path := e] == tree[path := e];
      tree := tree[path := e];
      PrefixesApart(path);
      forall k | 0 <= k < |path| && old(Reached(path)) ensures ReachedAt(path, k) {
        assert old(ReachedAt(path, k));
      }
    }

    lemma InTree(tree: map<Path, Entry>, device: map<Path, Listing>, p: Path)
      requires Coherent(tree, device) && p in tree
      ensures p in device && Faithful(tree[p], device[p]) && Distinct(device[p].files)
    {
    }

    lemma Relisted(e: Entry, l: Listing, now: Entry)
      requires Faithful(e, l) && Distinct(l.files)
      requires now == e.(filesDirty := false, files := l.files)
      ensures Faithful(now, l)
    {
    }

    lemma ListedFiles(p: Path)
      requires Valid() && p in tree && !tree[p].filesDirty
      ensures p in device && Distinct(tree[p].files) && SameNames(tree[p].files, device[p].files)
    {
      CachedExists(p);
    }

    /** The listing of a dirty folder when the driver reports an error: the folder counts as clean from then on, and empty.
        Exactly when the folder is empty on the device as well does the cache stay coherent. */
    method ListFilesFails(path: Path)
      requires Valid() && path in tree && tree[path].filesDirty
      modifies this`tree
      ensures tree == old(tree)[path := old(tree)[path].(filesDirty := false, files := [])]
      ensures path in device && (Valid() <==> device[path].files == [])
    {
      hide DeviceTree, CachedTree;
      CachedExists(path);
      DeviceDistinct(path);
      var e := tree[path].(filesDirty := false, files := []);
      if device[path].files == [] {
        EntryReplaced(tree, device, path, e, device[path]);
        assert device[path := device[path]] == device;
      } else {
        assert device[path].files[0] in device[path].files;
        assert !Faithful(e, device[path]);
      }
      tree := tree[path := e];
    }

    /** lookup_folder_file */
    method LookupFile(path: Path, name: string) returns (found: bool)
      requires Valid()
      modifies this
      ensures Valid() && device == old(device)
      ensures found <==> path in device && name in device[path].files
      ensures found ==> path in tree && name in tree[path].files && !tree[path].filesDirty
    {
      hide Coherent, Faithful;
      found := Lookup(path);
      if found {
        if tree[path].filesDirty {
          var _, _ := ListFiles(path);
        }
        ListedFiles(path);
        found := name in tree[path].files;
      }
    }

    /** gp_filesystem_delete_file */
    method DeleteFile(path: Path, name: string) returns (ok: bool)
      requires Valid()
      modifies this
      ensures Valid()
      ensures ok <==> path in old(device) && name in old(device)[path].files
      ensures !ok ==> device == old(device)
      ensures ok ==> device == old(device)[path := old(device)[path].(files := Remove(old(device)[path].files, name))]
    {
      hide Coherent, Faithful, Distinct;
      ok := LookupFile(path, name);
      if ok {
        ListedFiles(path);
        DeviceDistinct(path);
        RemoveDistinct(tree[path].files, name);
        RemoveDistinct(device[path].files, name);
        SetFiles(path, false, Remove(tree[path].files, name), Remove(device[path].files, name));
      }
    }

    /** gp_filesystem_put_file with a file of type NORMAL. A name the folder already has is an error, reported after the
        upload, if the cache knows the name. */
    method PutFile(path: Path, name: string) returns (found: bool, ok: bool)
      requires Valid()
      modifies this
      ensures Valid()
      ensures found <==> path in old(device)
      ensures !found ==> device == old(device) && !ok
      ensures found ==>
        var was := old(device)[path];
        && device == old(device)[path := was.(files := if name in was.files then was.files else was.files + [name])]
        && path in tree && name in tree[path].files
        && (ok <==> !(old(Reached(path)) && path in old(tree) && name in old(tree)[path].files))
        && (name !in was.files ==> ok)
    {
      hide Coherent;
      ok := false;
      found := Lookup(path);
      if found {
        CachedExists(path);
        DeviceDistinct(path);
        var onDevice := if name in device[path].files then device[path].files else device[path].files + [name];
        ok := name !in tree[path].files;
        SetFiles(path, tree[path].filesDirty, if ok then tree[path].files + [name] else tree[path].files, onDevice);
      }
    }

    /** gp_filesystem_delete_all_one_by_one */
    method DeleteOneByOne(path: Path) returns (ok: bool)
      requires Valid()
      modifies this
      ensures Valid()
      ensures ok <==> path in old(device)
      ensures !ok ==> device == old(device)
      ensures ok ==> device == old(device)[path := old(device)[path].(files := [])]
    {
      hide Coherent, Faithful, Remove;
      var list;
      ok, list := ListFiles(path);
      if !ok {
        return;
      }
      assert list[..|list|] == list;
      assert old(device)[path := old(device)[path].(files := device[path].files)] == device;
      var x := |list|;
      while x > 0
        invariant 0 <= x <= |list| && Valid() && path in device
        invariant device == old(device)[path := old(device)[path].(files := device[path].files)]
        invariant SameNames(list[..x], device[path].files)
      {
        x := x - 1;
        LastOf(list, x);
        var deleted := DeleteFile(path, list[x]);
      }
      NoNames(device[path].files);
    }

    lemma LastOf(list: seq<string>, x: nat)
      requires x < |list| && Distinct(list)
      ensures list[x] !in list[..x] && list[..x + 1] == list[..x] + [list[x]]
    {
    }

    lemma NoNames(s: seq<string>)
      ensures SameNames([], s) ==> s == []
    {
      if s != [] {
        assert s[0] in s && s[0] !in [];
      }
    }

    /** The folder counts as listed after all its files are gone. */
    method SetListed(path: Path)
      requires Valid() && path in device && device[path].files == []
      modifies this`tree
      ensures Valid()
    {
      hide Coherent;
      if path in tree {
        CachedExists(path);
        FilesOnDevice(path);
        AmongNone(tree[path].files);
        var e := tree[path].(filesDirty := false);
        EntryReplaced(tree, device, path, e, device[path]);
        assert device[path := device[path]] == device;
        tree := tree[path := e];
      }
    }

    /** gp_filesystem_delete_all; the driver's own function may be missing, or fail after some files are gone: the rest
        then go one by one, which begins with a new listing of the dirty folder. */
    method DeleteAll(path: Path, hasFunction: bool, works: bool, gone: set<string>) returns (ok: bool)
      requires Valid()
      modifies this
      ensures Valid()
      ensures ok <==> path in old(device)
      ensures !ok ==> device == old(device)
      ensures ok ==> device == old(device)[path := old(device)[path].(files := [])]
    {
      hide Coherent, Faithful;
      ok := Lookup(path);
      if !ok {
        return;
      }
      CachedExists(path);
      if !hasFunction {
        ok := DeleteOneByOne(path);
        return;
      }
      DeviceDistinct(path);
      if works {
        SetFiles(path, false, [], []);
      } else {
        DriverFails(path, gone);
        ok := DeleteOneByOne(path);
        SetListed(path);
      }
    }

    /** The driver removes some files and reports an error; the folder, marked dirty before, is listed again. */
    method DriverFails(path: Path, gone: set<string>)
      requires Valid() && path in tree && path in device && Reached(path)
      modifies this
      ensures Valid() && path in device
      ensures device == old(device)[path := old(device)[path].(files := RemoveAll(old(device)[path].files, gone))]
    {
      hide Coherent, Faithful, Reached, DeviceTree;
      tree := tree[path := tree[path].(filesDirty := true)];
      Depleted(old(tree), device, path, gone);
      device := device[path := device[path].(files := RemoveAll(device[path].files, gone))];
      assert WithoutFiles(path) == old(tree)[path := old(tree)[path].(filesDirty := true, files := [])];
      Requery(path);
    }

    lemma Depleted(tree: map<Path, Entry>, device: map<Path, Listing>, p: Path, gone: set<string>)
      requires Coherent(tree, device) && p in tree && p in device
      ensures Coherent(tree[p := tree[p].(filesDirty := true, files := [])],
                       device[p := device[p].(files := RemoveAll(device[p].files, gone))])
    {
      hide DeviceTree, CachedTree, RemoveAll, Distinct;
      InTree(tree, device, p);
      RemoveAllDistinct(device[p].files, gone);
      assert Distinct([]) by { NothingTwice(); }
      EntryReplaced(tree, device, p, tree[p].(filesDirty := true, files := []),
                    device[p].(files := RemoveAll(device[p].files, gone)));
    }

    lemma NothingTwice()
      ensures Distinct([])
    {
    }

    /** gp_filesystem_make_dir; the device refuses a name it has. */
    method MakeDir(path: Path, name: string) returns (ok: bool)
      requires Valid()
      modifies this
      ensures Valid()
      ensures ok <==> path in old(device) && name !in old(device)[path].folders
      ensures device == if ok then WithFolder(old(device), path, name) else old(device)
    {
      hide Coherent, Faithful;
      ok := Lookup(path);
      if ok {
        CachedExists(path);
        ok := name !in device[path].folders;
        if ok {
          MadeCoherent(tree, device, path, name);
          tree, device := Grown(tree, path, name), WithFolder(device, path, name);
        }
      }
    }

    /** gp_filesystem_remove_dir; the device refuses to remove a folder that is not empty, whatever is cached of it. */
    method RemoveDir(path: Path, name: string) returns (ok: bool)
      requires Valid()
      modifies this
      ensures Valid()
      ensures ok <==> path in old(device) && name in old(device)[path].folders && path + [name] in old(device)
                      && old(device)[path + [name]] == Listing([], [])
      ensures device == if ok then DeviceWithout(old(device), path, name) else old(device)
    {
      hide Coherent, Faithful;
      ok := Lookup(path);
      if !ok {
        return;
      }
      if tree[path].foldersDirty {
        var _, _ := ListFolders(path);
      }
      ListedFolders(path);
      var child := path + [name];
      if name !in tree[path].folders {
        return false;
      }
      FolderOnDevice(path, name);
      ok := tree[child].folders == [] && tree[child].files == [] && device[child] == Listing([], []);
      if ok {
        RemovedCoherent(tree, device, path, name);
        tree, device := CacheWithout(tree, path, name), DeviceWithout(device, path, name);
      }
    }

    lemma ListedFolders(p: Path)
      requires Valid() && p in tree && !tree[p].foldersDirty
      ensures p in device && SameNames(tree[p].folders, device[p].folders)
    {
      CachedExists(p);
    }

    lemma FolderOnDevice(p: Path, name: string)
      requires Valid() && p in tree && name in tree[p].folders
      ensures var q := p + [name];
        && q in tree && q in device
        && (device[q] == Listing([], []) ==> tree[q].folders == [] && tree[q].files == [])
    {
      var q := p + [name];
      CachedExists(q);
      AmongNone(tree[q].folders);
      AmongNone(tree[q].files);
    }

    // ---- numbering ----

    /** gp_filesystem_name: the file at a position of the cached list. */
    method NameOf(path: Path, number: nat) returns (name: string, found: bool)
      requires Valid()
      modifies this`tree
      ensures Valid()
      ensures found <==> path in device && path in tree && number < |tree[path].files|
      ensures found ==> name == tree[path].files[number] && Reached(path)
      ensures old(Reached(path)) ==> tree == old(tree)
      ensures found ==> old(Reached(path))
    {
      hide Coherent, Reached;
      name := "";
      found := Lookup(path);
      if found {
        if number < |tree[path].files| {
          name := tree[path].files[number];
        } else {
          found := false;
        }
      }
    }

    /** gp_filesystem_number: looked up in the cached list first, and in a fresh listing if that is dirty. */
    method NumberOf(path: Path, name: string) returns (number: nat, found: bool)
      requires Valid()
      modifies this
      ensures Valid() && device == old(device)
      ensures found <==> path in device && name in device[path].files
      ensures found ==> path in tree && number < |tree[path].files| && tree[path].files[number] == name
      ensures found ==> Reached(path)
      ensures old(Reached(path)) && path in old(tree) && (name in old(tree)[path].files || !old(tree)[path].filesDirty) ==>
        tree == old(tree)
    {
      hide Coherent, Faithful, Reached;
      number := 0;
      found := Lookup(path);
      if !found {
        return;
      }
      CachedExists(path);
      FilesOnDevice(path);
      number, found := Scan(tree[path].files, name);
      if !found && tree[path].filesDirty {
        var names;
        found, names := ListFiles(path);
        number, found := Scan(names, name);
      }
    }

    lemma FilesOnDevice(p: Path)
      requires Valid() && p in tree
      ensures p in device && Among(tree[p].files, device[p].files)
      ensures !tree[p].filesDirty ==> SameNames(tree[p].files, device[p].files)
    {
    }

    static method Scan(files: seq<string>, name: string) returns (number: nat, found: bool)
      ensures found <==> name in files
      ensures found ==> number < |files| && files[number] == name
    {
      number, found := 0, false;
      while number < |files|
        invariant 0 <= number <= |files| && name !in files[..number]
      {
        if files[number] == name {
          return number, true;
        }
        number := number + 1;
      }
    }

    /** The number of the file at a position is that position, if there is such a file in a folder that is cached and
        whose place needs no new listing: a folder entered anew has no files yet. */
    method NumberOfName(path: Path, number: nat) returns (again: nat, found: bool)
      requires Valid()
      modifies this
      ensures Valid() && device == old(device) && (found ==> again == number)
      ensures found <==> old(Reached(path)) && path in old(tree) && number < |old(tree)[path].files|
    {
      hide Coherent, Reached, Faithful;
      var name;
      again := 0;
      if path in tree {
        CachedExists(path);
      }
      name, found := NameOf(path, number);
      if found {
        CachedExists(path);
        FilesOnDevice(path);
        again, found := NumberOf(path, name);
        SamePosition(path, again, number);
      }
    }

    /** The name at the number of a file is its name. */
    method NameOfNumber(path: Path, name: string) returns (again: string, found: bool)
      requires Valid()
      modifies this
      ensures Valid() && device == old(device)
      ensures found <==> path in device && name in device[path].files
      ensures found ==> again == name
    {
      hide Coherent, Reached, Faithful;
      var number;
      again := "";
      number, found := NumberOf(path, name);
      if found {
        again, found := NameOf(path, number);
      }
    }

    lemma SamePosition(p: Path, i: nat, j: nat)
      requires Valid() && p in tree && i < |tree[p].files| && j < |tree[p].files| && tree[p].files[i] == tree[p].files[j]
      ensures i == j
    {
      CachedExists(p);
    }
  }
}
