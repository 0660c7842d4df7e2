/**
 The file store: one value file and one sidecar a place (lij-worker/node/store.js). `contents` is the
 map the files stand for, under the principal spelling of each place's key, expired entries included
 until a read removes them.
 */
module FileStore {
  import opened Text
  import opened Kv
  import opened FilePath
  import opened Paging

  type Bytes = seq<byte>

  /** A file's content: a value's bytes, or a sidecar's two numbers. */
  datatype File = Data(bytes: Bytes) | Meta(c: Option<int>, exp: Option<int>)

  /** A directory and a file name in it. */
  type Path = (string, string)

  type Files = map<Path, File>

  /** A key that stands for its place. */
  predicate Storable(key: string) { Split(key).Ok? && Principal(key) == key }

  lemma PrincipalStorable(key: string)
    requires Split(key).Ok?
    ensures Storable(Principal(key)) && forall k :: PathOf(Principal(key), k) == PathOf(key, k)
    ensures Canonical(key) ==> Principal(key) == key
  {
    hide Principal, Split;
    PrincipalSplits(key);
    if Canonical(key) { CanonicalIsPrincipal(key); }
  }

  function PathOf(key: string, k: Kind): Path
    requires Split(key).Ok?
  { (Split(key).place.prefix, FileName(Split(key).place.enc, k)) }

  function Positive(n: Option<int>): Option<nat> {
    if n.Some? && n.value > 0 then Some(n.value) else None
  }

  /** `readMeta`: what is not a positive number reads as none. */
  function ReadMeta(f: File): (nat, Option<nat>) {
    if f.Meta? then (match Positive(f.c) case Some(c) => c case None => 0, Positive(f.exp)) else (0, None)
  }

  /******* Which files stand for which map *******/

  /** Where each kind of file of each key lives and whose file a path is, as functions of their own,
      so that the lemmas below see nothing of a path but that each tells its owner. */
  datatype Layout = Layout(ok: string -> bool, at: (string, Kind) -> Path, owner: Path -> (string, Kind))

  ghost predicate Apart(l: Layout) {
    forall a, k :: l.ok(a) ==> l.owner(l.at(a, k)) == (a, k)
  }

  ghost predicate Kept(fs: Files, l: Layout, key: string, e: Entry<Bytes>) {
    var v, m := l.at(key, ValueFile), l.at(key, SidecarFile);
    l.ok(key) && v in fs && fs[v] == Data(e.value) && m in fs && ReadMeta(fs[m]) == (e.c, e.exp)
  }

  /** A file of a key the store holds, or a temporary one. */
  ghost predicate Accounted(l: Layout, p: Path, keys: set<string>) {
    var (key, kind) := l.owner(p);
    l.ok(key) && p == l.at(key, kind) && (kind.TempFile? || key in keys)
  }

  ghost predicate Represents(fs: Files, l: Layout, contents: Store<Bytes>) {
    && (forall key :: key in contents ==> Kept(fs, l, key, contents[key]))
    && (forall p :: p in fs ==> Accounted(l, p, contents.Keys))
  }

  lemma RepresentsPut(fs: Files, l: Layout, contents: Store<Bytes>, key: string, m: File, e: Entry<Bytes>,
                      tv: string, tm: string)
    requires Represents(fs, l, contents) && Apart(l) && l.ok(key)
    requires ReadMeta(m) == (e.c, e.exp)
    ensures
      var temps := {l.at(key, TempFile(true, tv)), l.at(key, TempFile(false, tm))};
      Represents((fs - temps)[l.at(key, ValueFile) := Data(e.value)][l.at(key, SidecarFile) := m], l,
          contents[key := e])
  {
    var temps := {l.at(key, TempFile(true, tv)), l.at(key, TempFile(false, tm))};
    var fs' := (fs - temps)[l.at(key, ValueFile) := Data(e.value)][l.at(key, SidecarFile) := m];
    forall k | k in contents && k != key ensures Kept(fs', l, k, contents[k]) {
      assert Kept(fs, l, k, contents[k]);
    }
    forall p | p in fs' ensures Accounted(l, p, contents[key := e].Keys) {
      assert p in fs ==> Accounted(l, p, contents.Keys);
    }
  }

  lemma RepresentsDelete(fs: Files, l: Layout, contents: Store<Bytes>, key: string)
    requires Represents(fs, l, contents) && Apart(l) && l.ok(key)
    ensures Represents(fs - {l.at(key, ValueFile), l.at(key, SidecarFile)}, l, contents - {key})
  {
    var fs' := fs - {l.at(key, ValueFile), l.at(key, SidecarFile)};
    forall k | k in contents && k != key ensures Kept(fs', l, k, contents[k]) {
      assert Kept(fs, l, k, contents[k]);
    }
    assert (contents - {key}).Keys == contents.Keys - {key};
    forall p | p in fs' ensures Accounted(l, p, (contents - {key}).Keys) {
      assert Accounted(l, p, contents.Keys);
      var (k, kind) := l.owner(p);
      if k == key {
        assert kind != ValueFile && kind != SidecarFile;
      }
    }
  }

  /** A value file of a key the map lacks would be unaccounted for. */
  lemma AbsentValueFile(fs: Files, l: Layout, contents: Store<Bytes>, key: string)
    requires Represents(fs, l, contents) && Apart(l) && l.ok(key) && l.at(key, ValueFile) in fs
    ensures key in contents
  {
    assert Accounted(l, l.at(key, ValueFile), contents.Keys);
  }

  /** The layout of the source. */
  function FileAt(key: string, k: Kind): Path { if Split(key).Ok? then PathOf(key, k) else ("", "") }

  ghost function Owner(p: Path): (string, Kind) {
    if exists a, k :: Storable(a) && FileAt(a, k) == p
    then var a, k :| Storable(a) && FileAt(a, k) == p; (a, k)
    else ("", ValueFile)
  }

  ghost function Disk(): Layout { Layout(Storable, FileAt, Owner) }

  lemma DiskApart()
    ensures Apart(Disk())
  {
    forall a, k | Storable(a) ensures Owner(FileAt(a, k)) == (a, k) {
      var (b, j) := Owner(FileAt(a, k));
      FileNamesDistinct(a, k, b, j);
    }
  }

  /** What a listing says of one key. */
  datatype Listed = Listed(name: string, c: nat, exp: Option<nat>)

  function ListedOf(contents: Store<Bytes>, key: string): Listed
    requires key in contents
  { Listed(NameOf(key), contents[key].c, contents[key].exp) }

  function NamesOf(ls: seq<Listed>): seq<string> {
    if ls == [] then [] else [ls[0].name] + NamesOf(ls[1..])
  }

  /** One line for each of the keys, telling what the map holds under it. */
  ghost predicate Lines(ls: seq<Listed>, keys: seq<string>, s: Store<Bytes>) {
    && |ls| == |keys|
    && (forall i :: 0 <= i < |ls| ==> keys[i] in s && ls[i] == ListedOf(s, keys[i]))
    && (forall i, j :: 0 <= i < j < |keys| ==> keys[i] != keys[j])
  }

  ghost predicate InNameOrder(ls: seq<Listed>) {
    forall i, j :: 0 <= i < j < |ls| ==> !Less(ls[j].name, ls[i].name)
  }

  /** A listing of the whole map: every key once, in the order of the names. */
  ghost predicate Roll(ls: seq<Listed>, keys: seq<string>, s: Store<Bytes>) {
    Lines(ls, keys, s) && InNameOrder(ls) && forall k :: k in keys <==> k in s
  }

  ghost predicate AllCanonical(s: Store<Bytes>) { forall k :: k in s ==> Canonical(k) }

  lemma {:induction false} NamesOfAt(ls: seq<Listed>)
    ensures |NamesOf(ls)| == |ls| && forall i :: 0 <= i < |ls| ==> NamesOf(ls)[i] == ls[i].name
  {
    if ls != [] { NamesOfAt(ls[1..]); }
  }

  /** Where every key is canonical a listing names the keys themselves, in order. */
  lemma CanonicalRoll(ls: seq<Listed>, keys: seq<string>, s: Store<Bytes>)
    requires Roll(ls, keys, s) && AllCanonical(s)
    ensures NamesOf(ls) == Sorted(s.Keys) == keys
    ensures forall i :: 0 <= i < |ls| ==> ls[i].name == keys[i]
  {
    NamesOfAt(ls);
    hide Less, Canonical, PrefixOf, RestOf;
    forall i | 0 <= i < |ls| ensures ls[i].name == keys[i] {
      assert keys[i] in s;
      LabelledIff(keys[i]);
    }
    forall i, j | 0 <= i < j < |keys| ensures Less(keys[i], keys[j]) {
      LessTrichotomy(keys[i], keys[j]);
    }
    assert NamesOf(ls) == keys;
    ListingUnique(keys, Sorted(s.Keys), s.Keys);
  }

  /** The key behind a listed value file: the file's name decodes to the key's name. */
  lemma ListedFileKey(fs: Files, contents: Store<Bytes>, p: Path) returns (key: string)
    requires Represents(fs, Disk(), contents) && p in fs && ListedFile(p.1)
    ensures key in contents && Storable(key) && p == FileAt(key, ValueFile)
    ensures |p.1| >= 2 && NameAt(Place(p.0, p.1[..|p.1| - 2])) == Some(NameOf(key))
    ensures
      var m := (p.0, FileName(p.1[..|p.1| - 2], SidecarFile));
      m == FileAt(key, SidecarFile) && m in fs && ReadMeta(fs[m]) == (contents[key].c, contents[key].exp)
  {
    var (k, kind) := Owner(p);
    assert Storable(k) && p == PathOf(k, kind) && (kind.TempFile? || k in contents) by {
      assert Accounted(Disk(), p, contents.Keys);
    }
    ListedIffValue(k, kind);
    NameAtIsName(k);
    key := k;
    assert Kept(fs, Disk(), key, contents[key]);
  }

  /** Writing under a temporary name and renaming, twice. */
  lemma WriteAndRename(fs: Files, v: Path, m: Path, tv: Path, tm: Path, a: File, b: File)
    requires v != m && v != tv && v != tm && m != tv && m != tm && tv != tm
    ensures ((fs[tv := a] - {tv})[v := a][tm := b] - {tm})[m := b] == (fs - {tv, tm})[v := a][m := b]
  {
  }

  /** The part of a listing a page is cut from. */
  function Select(ls: seq<Listed>, prefix: string, cursor: Option<string>): (r: seq<Listed>)
    ensures NamesOf(r) == Matching(NamesOf(ls), prefix, cursor) && |r| <= |ls|
    ensures forall l :: l in r <==> l in ls && prefix <= l.name && (cursor.Some? ==> Less(cursor.value, l.name))
  {
    if ls == [] then []
    else
      var rest := Select(ls[1..], prefix, cursor);
      assert ls == [ls[0]] + ls[1..] && NamesOf(ls)[1..] == NamesOf(ls[1..]);
      if prefix <= ls[0].name && (cursor.None? || Less(cursor.value, ls[0].name)) then [ls[0]] + rest else rest
  }

  lemma {:induction false} NamesOfPrefix(ls: seq<Listed>, k: nat)
    requires k <= |ls|
    ensures |NamesOf(ls)| == |ls| && NamesOf(ls[..k]) == NamesOf(ls)[..k]
    ensures k > 0 ==> NamesOf(ls)[k - 1] == ls[k - 1].name
  {
    if ls != [] {
      NamesOfPrefix(ls[1..], if k == 0 then 0 else k - 1);
      if k > 0 {
        assert ls[..k] == [ls[0]] + ls[1..][..k - 1];
      }
    }
  }

  /******* A listing in progress *******/

  predicate IsListed(p: Path) { ListedFile(p.1) }

  /** A layout whose value files are the listed ones. */
  ghost predicate Tells(l: Layout, listed: Path -> bool) {
    Apart(l) && forall key, kind :: l.ok(key) ==> (listed(l.at(key, kind)) <==> kind == ValueFile)
  }

  /** The files still to visit are those of the keys left, and no other value file. */
  ghost predicate Pending(l: Layout, listed: Path -> bool, left: set<string>, todo: set<Path>, present: set<Path>) {
    && (forall k :: k in left ==> l.ok(k) && l.at(k, ValueFile) in todo)
    && (forall p :: p in todo && listed(p) ==>
          p in present && l.owner(p).0 in left && l.at(l.owner(p).0, ValueFile) == p)
  }

  lemma DiskTells()
    ensures Tells(Disk(), IsListed)
  {
    DiskApart();
    forall key, kind | Storable(key) ensures IsListed(FileAt(key, kind)) <==> kind == ValueFile {
      ListedIffValue(key, kind);
    }
  }

  lemma PendingStart(fs: Files, l: Layout, listed: Path -> bool, contents: Store<Bytes>)
    requires Represents(fs, l, contents) && Tells(l, listed)
    ensures Pending(l, listed, contents.Keys, fs.Keys, fs.Keys)
  {
    forall k | k in contents ensures l.ok(k) && l.at(k, ValueFile) in fs {
      assert Kept(fs, l, k, contents[k]);
    }
    forall p | p in fs && listed(p) ensures l.owner(p).0 in contents && l.at(l.owner(p).0, ValueFile) == p {
      assert Accounted(l, p, contents.Keys);
    }
  }

  lemma PendingDone(l: Layout, listed: Path -> bool, left: set<string>, present: set<Path>)
    requires Pending(l, listed, left, {}, present)
    ensures left == {}
  {
  }

  lemma PendingFile(l: Layout, listed: Path -> bool, left: set<string>, todo: set<Path>, present: set<Path>, p: Path)
    requires Pending(l, listed, left, todo, present) && Tells(l, listed) && p in todo
    ensures listed(p) ==> p in present
    ensures !listed(p) ==> Pending(l, listed, left, todo - {p}, present)
  {
    forall k | k in left && !listed(p) ensures l.at(k, ValueFile) != p {
      assert listed(l.at(k, ValueFile));
    }
  }

  lemma PendingVisited(l: Layout, listed: Path -> bool, left: set<string>, todo: set<Path>, present: set<Path>,
          present': set<Path>, p: Path, key: string)
    requires Pending(l, listed, left, todo, present) && Tells(l, listed)
    requires p in todo && listed(p) && l.ok(key) && p == l.at(key, ValueFile)
    requires present' >= present - {p, l.at(key, SidecarFile)}
    ensures key in left && Pending(l, listed, left - {key}, todo - {p}, present')
  {
    assert l.owner(p) == (key, ValueFile);
    forall k | k in left && k != key ensures l.at(k, ValueFile) != p {
      assert l.owner(l.at(k, ValueFile)) == (k, ValueFile);
    }
    forall q | q in todo - {p} && listed(q) ensures q in present' && l.owner(q).0 in left - {key} {
      assert !listed(l.at(key, SidecarFile));
      assert q in present && q != l.at(key, SidecarFile);
    }
  }

  /** What a listing has found so far: of the keys dealt with, the live ones are kept and listed and
      the expired ones are gone. */
  ghost predicate Progress(was: Store<Bytes>, contents: Store<Bytes>, found: seq<Listed>, keys: seq<string>,
                           left: set<string>, now: nat) {
    && left <= was.Keys
    && contents == (map k | k in was && (k in left || Live(was[k], now)) :: was[k])
    && Lines(found, keys, was)
    && forall k :: k in keys <==> k in was && k !in left && Live(was[k], now)
  }

  lemma ProgressStart(was: Store<Bytes>, now: nat)
    ensures Progress(was, was, [], [], was.Keys, now)
  {
  }

  lemma ProgressVisited(was: Store<Bytes>, contents: Store<Bytes>, found: seq<Listed>, keys: seq<string>,
                        left: set<string>, now: nat, key: string)
    requires Progress(was, contents, found, keys, left, now) && key in left
    ensures key in contents && contents[key] == was[key] && ListedOf(contents, key) == ListedOf(was, key)
    ensures
      if Live(was[key], now)
      then Progress(was, contents, found + [ListedOf(was, key)], keys + [key], left - {key}, now)
      else Progress(was, contents - {key}, found, keys, left - {key}, now)
  {
    hide NameOf;
    forall k ensures k in keys + [key] <==> k in keys || k == key {
      if k == key { assert (keys + [key])[|keys|] == key; }
    }
  }

  lemma ProgressDone(was: Store<Bytes>, contents: Store<Bytes>, found: seq<Listed>, keys: seq<string>, now: nat)
    requires Progress(was, contents, found, keys, {}, now)
    ensures contents == View(was, now) && Lines(found, keys, contents)
    ensures forall k :: k in keys <==> k in contents
  {
  }

  function Inserted<T>(s: seq<T>, x: T, j: nat): seq<T>
    requires j <= |s|
  { s[..j] + [x] + s[j..] }

  lemma InsertedHolds<T>(s: seq<T>, x: T, j: nat)
    requires j <= |s|
    ensures forall y :: y in Inserted(s, x, j) <==> y in s || y == x
  {
    assert s == s[..j] + s[j..];
  }

  lemma InsertedAt<T>(s: seq<T>, x: T, j: nat, i: nat)
    requires j <= |s| && i <= |s|
    ensures |Inserted(s, x, j)| == |s| + 1
    ensures Inserted(s, x, j)[i] == if i < j then s[i] else if i == j then x else s[i - 1]
  {
  }

  lemma LinesInsert(out: seq<Listed>, ks: seq<string>, s: Store<Bytes>, l: Listed, key: string, j: nat)
    requires Lines(out, ks, s) && key in s && l == ListedOf(s, key) && key !in ks && j <= |out|
    ensures Lines(Inserted(out, l, j), Inserted(ks, key, j), s)
  {
    hide ListedOf, Inserted;
    var lines, all := Inserted(out, l, j), Inserted(ks, key, j);
    InsertedAt(out, l, j, j);
    InsertedAt(ks, key, j, j);
    forall i | 0 <= i < |lines| ensures all[i] in s && lines[i] == ListedOf(s, all[i]) {
      InsertedAt(out, l, j, i);
      InsertedAt(ks, key, j, i);
    }
    forall a, b | 0 <= a < b < |all| ensures all[a] != all[b] {
      InsertedAt(ks, key, j, a);
      InsertedAt(ks, key, j, b);
    }
  }

  lemma OrderInsert(out: seq<Listed>, l: Listed, j: nat)
    requires InNameOrder(out) && j <= |out|
    requires forall i :: 0 <= i < j ==> !Less(l.name, out[i].name)
    requires j < |out| ==> Less(l.name, out[j].name)
    ensures InNameOrder(Inserted(out, l, j))
  {
    var all := Inserted(out, l, j);
    forall i, k | 0 <= i < k < |all| ensures !Less(all[k].name, all[i].name) {
      if i == j {
        LessTrichotomy(l.name, out[j].name);
        if k - 1 > j && Less(all[k].name, l.name) { LessTransitive(all[k].name, l.name, out[j].name); }
      }
    }
  }

  lemma EmptyInOrder()
    ensures InNameOrder([])
  {
  }

  /** A stable sort by name, as the library's is. */
  method SortByName(found: seq<Listed>, ghost keys: seq<string>, ghost s: Store<Bytes>)
    returns (out: seq<Listed>, ghost ks: seq<string>)
    requires Lines(found, keys, s)
    ensures Lines(out, ks, s) && InNameOrder(out) && forall k :: k in ks <==> k in keys
  {
    hide ListedOf, Inserted, InNameOrder, Less;
    EmptyInOrder();
    out, ks := [], [];
    for i := 0 to |found|
      invariant Lines(out, ks, s) && InNameOrder(out) && forall k :: k in ks <==> k in keys[..i]
    {
      var j := 0;
      while j < |out| && !Less(found[i].name, out[j].name)
        invariant 0 <= j <= |out|
        invariant forall m :: 0 <= m < j ==> !Less(found[i].name, out[m].name)
      {
        j := j + 1;
      }
      assert keys[..i + 1] == keys[..i] + [keys[i]];
      LinesInsert(out, ks, s, found[i], keys[i], j);
      OrderInsert(out, found[i], j);
      InsertedHolds(ks, keys[i], j);
      out, ks := Inserted(out, found[i], j), Inserted(ks, keys[i], j);
    }
    assert keys[..|found|] == keys;
  }

  /** The page cut from the chosen lines: their names are the page of the names, */
  lemma PageCut(ls: seq<Listed>, prefix: string, cursor: Option<string>, size: nat)
    requires size > 0
    ensures
      var chosen := Select(ls, prefix, cursor);
      var page := if |chosen| <= size then chosen else chosen[..size];
      var next := if |page| == |chosen| then None else Some(page[|page| - 1].name);
      |page| <= size && Page(NamesOf(page), next) == PageOf(NamesOf(ls), prefix, cursor, size)
  {
    hide Less;
    var chosen := Select(ls, prefix, cursor);
    NamesOfPrefix(chosen, if |chosen| <= size then |chosen| else size);
    hide Select, Matching, NamesOf;
  }

  /** and they are lines that were asked for, all of them when the page is the last. */
  lemma PageHolds(ls: seq<Listed>, prefix: string, cursor: Option<string>, size: nat)
    ensures
      var chosen := Select(ls, prefix, cursor);
      var page := if |chosen| <= size then chosen else chosen[..size];
      && (forall l :: l in page ==> l in ls && prefix <= l.name && (cursor.Some? ==> Less(cursor.value, l.name)))
      && (|page| == |chosen| ==>
           forall l :: l in ls && prefix <= l.name && (cursor.Some? ==> Less(cursor.value, l.name)) ==> l in page)
  {
    hide Less, NamesOf, Matching;
    var chosen := Select(ls, prefix, cursor);
    hide Select;
    if |chosen| > size {
      forall l | l in chosen[..size] ensures l in chosen {
      }
    }
  }

  /** What a listing tells of each key, gathered by name. */
  method Table(ls: seq<Listed>, ghost keys: seq<string>, ghost s: Store<Bytes>)
    returns (table: map<string, (nat, Option<nat>)>)
    requires |ls| == |keys| && forall k :: k in keys <==> k in s
    requires forall i :: 0 <= i < |ls| ==> ls[i].name == keys[i] && ls[i] == ListedOf(s, keys[i])
    ensures table == map k | k in s :: (s[k].c, s[k].exp)
  {
    hide NameOf;
    table := map[];
    for i := 0 to |ls|
      invariant forall k :: k in table <==> k in keys[..i]
      invariant forall k :: k in table ==> k in s && table[k] == (s[k].c, s[k].exp)
    {
      assert keys[..i + 1] == keys[..i] + [keys[i]];
      table := table[ls[i].name := (ls[i].c, ls[i].exp)];
    }
    assert keys[..|ls|] == keys;
  }

  class FileStore {
    var files: Files
    ghost var contents: Store<Bytes>

    ghost predicate Valid() reads this { Represents(files, Disk(), contents) }

    constructor ()
      ensures Valid() && contents == map[]
    {
      files, contents := map[], map[];
    }

    method RemoveFiles(v: Path, m: Path, ghost key: string)
      requires Valid() && Storable(key) && v == FileAt(key, ValueFile) && m == FileAt(key, SidecarFile)
      modifies this
      ensures Valid() && contents == old(contents) - {key}
      ensures files == old(files) - {v, m}
    {
      DiskApart();
      RepresentsDelete(files, Disk(), contents, key);
      files := files - {v, m};
      contents := contents - {key};
    }

    /** One entry, or none when absent or expired; an expired one is removed. */
    method Read(key: string, now: nat) returns (error: bool, e: Option<Entry<Bytes>>)
      requires Valid()
      modifies this
      ensures Valid()
      ensures error <==> !Split(key).Ok?
      ensures error ==> contents == old(contents)
      ensures !error ==>
        e == Find(old(contents), Principal(key), now) && contents == Swept(old(contents), Principal(key), now)
    {
      error, e := false, None;
      if !Split(key).Ok? {
        error := true;
        return;
      }
      var v, m := PathOf(key, ValueFile), PathOf(key, SidecarFile);
      ghost var name := Principal(key);
      PrincipalStorable(key);
      hide Principal, Split, NameOf;
      assert name in contents ==> Kept(files, Disk(), name, contents[name]);
      if v !in files {
        return;
      }
      DiskApart();
      AbsentValueFile(files, Disk(), contents, name);
      var (c, exp) := ReadMeta(files[m]);
      if exp.Some? && exp.value * 1000 <= now {
        RemoveFiles(v, m, name);
        return;
      }
      e := Some(Entry(files[v].bytes, c, exp));
    }

    /** Each file is written under a temporary name and renamed into place. */
    method Put(key: string, value: Bytes, x: Expiry, c: int, now: nat, tag: string)
      returns (error: bool)
      requires Valid()
      modifies this
      ensures Valid()
      ensures error <==> !Split(key).Ok?
      ensures
        contents == if error then old(contents) else old(contents)[Principal(key) := Written(value, x, c, now)]
    {
      error := false;
      if !Split(key).Ok? {
        error := true;
        return;
      }
      var at := match x case Never => None case Ttl(s) => (if s == 0 then None else Some(now / 1000 + s))
                      case Until(a) => (if a == 0 then None else Some(a));
      var m := Meta(if c > 0 then Some(c) else None, at);
      var value' := Data(value);
      var v, sidecar := PathOf(key, ValueFile), PathOf(key, SidecarFile);
      var tv, tm := PathOf(key, TempFile(true, tag)), PathOf(key, TempFile(false, tag));
      ghost var before := files;
      hide Represents, PathOf, Apart, Split, Principal;
      files := files[tv := value'];
      files := (files - {tv})[v := files[tv]];
      files := files[tm := m];
      files := (files - {tm})[sidecar := files[tm]];
      ghost var e := Written(value, x, c, now);
      PutRepresents(before, contents, key, m, e, tag);
      contents := contents[Principal(key) := e];
    }

    method Delete(key: string) returns (error: bool)
      requires Valid()
      modifies this
      ensures Valid()
      ensures error <==> !Split(key).Ok?
      ensures contents == if error then old(contents) else old(contents) - {Principal(key)}
    {
      error := !Split(key).Ok?;
      if !error {
        PrincipalStorable(key);
        RemoveFiles(PathOf(key, ValueFile), PathOf(key, SidecarFile), Principal(key));
      }
    }

    /** What a listing reads of one value file: the name its path decodes to, and its sidecar. */
    method Inspect(p: Path) returns (l: Listed, sidecar: Path, ghost key: string)
      requires Valid() && p in files && IsListed(p)
      ensures key in contents && Storable(key)
      ensures p == FileAt(key, ValueFile) && sidecar == FileAt(key, SidecarFile)
      ensures l == ListedOf(contents, key)
    {
      key := ListedFileKey(files, contents, p);
      var enc := p.1[..|p.1| - 2];
      var name := NameAt(Place(p.0, enc)).value;
      sidecar := (p.0, FileName(enc, SidecarFile));
      var (c, exp) := ReadMeta(files[sidecar]);
      l := Listed(name, c, exp);
    }

    /** One file met by a listing: an expired entry is removed, a live one is found. */
    method Visit(p: Path, now: nat, found: seq<Listed>, ghost keys: seq<string>, ghost was: Store<Bytes>,
                 ghost left: set<string>, ghost todo: set<Path>)
      returns (found': seq<Listed>, ghost keys': seq<string>, ghost left': set<string>)
      requires Valid() && p in files && p in todo && IsListed(p)
      requires Progress(was, contents, found, keys, left, now)
      requires Pending(Disk(), IsListed, left, todo, files.Keys)
      modifies this
      ensures Valid() && Progress(was, contents, found', keys', left', now)
      ensures Pending(Disk(), IsListed, left', todo - {p}, files.Keys)
    {
      hide Represents, Progress, Pending, PathOf, Principal, NameOf;
      var l, sidecar, key := Inspect(p);
      ghost var present, held := files.Keys, contents;
      found', keys' := found, keys;
      if l.exp.Some? && l.exp.value * 1000 <= now {
        RemoveFiles(p, sidecar, key);
      } else {
        found', keys' := found + [l], keys + [key];
      }
      DiskTells();
      PendingVisited(Disk(), IsListed, left, todo, present, files.Keys, p, key);
      ProgressVisited(was, held, found, keys, left, now, key);
      left' := left - {key};
    }

    /** The directory walk of a listing: what is live is found, what has expired is removed. */
    method Walk(now: nat) returns (found: seq<Listed>, ghost keys: seq<string>)
      requires Valid()
      modifies this
      ensures Valid() && Progress(old(contents), contents, found, keys, {}, now)
    {
      hide Represents, Progress, Pending;
      ghost var was := contents;
      DiskTells();
      PendingStart(files, Disk(), IsListed, contents);
      ProgressStart(contents, now);
      var todo := files.Keys;
      ghost var left := contents.Keys;
      found, keys := [], [];
      while todo != {}
        invariant Valid() && Progress(was, contents, found, keys, left, now)
        invariant Pending(Disk(), IsListed, left, todo, files.Keys)
        decreases todo
      {
        var p :| p in todo;
        PendingFile(Disk(), IsListed, left, todo, files.Keys, p);
        if IsListed(p) {
          found, keys, left := Visit(p, now, found, keys, was, left, todo);
        }
        todo := todo - {p};
      }
      PendingDone(Disk(), IsListed, left, files.Keys);
    }

    /** Every live key once, in the order of the names; the expired are removed on the way. */
    method Entries(now: nat) returns (out: seq<Listed>, ghost keys: seq<string>)
      requires Valid()
      modifies this
      ensures Valid()
      ensures contents == View(old(contents), now) && Roll(out, keys, contents)
      ensures AllCanonical(contents) ==> NamesOf(out) == Sorted(contents.Keys)
    {
      var found;
      ghost var ks;
      found, ks := Walk(now);
      ProgressDone(old(contents), contents, found, ks, now);
      out, keys := SortByName(found, ks, contents);
      if AllCanonical(contents) { CanonicalRoll(out, keys, contents); }
    }

    /** One page of the live names that start with `prefix`, after `cursor`. */
    method List(prefix: string, cursor: Option<string>, limit: int, now: nat)
      returns (page: seq<Listed>, next: Option<string>, ghost all: seq<Listed>, ghost keys: seq<string>)
      requires Valid()
      modifies this
      ensures Valid() && contents == View(old(contents), now) && Roll(all, keys, contents)
      ensures forall l :: l in page ==> l in all && prefix <= l.name && (cursor.Some? ==> Less(cursor.value, l.name))
      ensures |page| <= (if limit > 0 then limit else 1000)
      ensures next.None? ==>
        forall l :: l in all && prefix <= l.name && (cursor.Some? ==> Less(cursor.value, l.name)) ==> l in page
      ensures
        Page(NamesOf(page), next) ==
        PageOf(NamesOf(all), prefix, cursor, if limit > 0 then limit else 1000)
      ensures AllCanonical(contents) ==> NamesOf(all) == Sorted(contents.Keys)
    {
      hide Represents, Less, Lists, Roll, Canonical, AllCanonical, Select, NamesOf, PageOf, View;
      var out;
      out, keys := Entries(now);
      all := out;
      var chosen := Select(out, prefix, cursor);
      var size := if limit > 0 then limit else 1000;
      PageCut(out, prefix, cursor, size);
      PageHolds(out, prefix, cursor, size);
      page := if |chosen| <= size then chosen else chosen[..size];
      next := if |page| == |chosen| then None else Some(page[|page| - 1].name);
    }

    /** A listing, as what it tells of each key. */
    method Tell(now: nat) returns (a: Answer<Bytes>)
      requires Valid() && AllCanonical(contents)
      modifies this
      ensures Valid() && contents == View(old(contents), now)
      ensures a == Listing(map k | k in contents :: (contents[k].c, contents[k].exp))
    {
      hide Represents, Canonical, Less;
      var out;
      ghost var keys;
      out, keys := Entries(now);
      CanonicalRoll(out, keys, contents);
      var table := Table(out, keys, contents);
      a := Listing(table);
    }

    /** One call of a run, on a key that is canonical where it has one. */
    method Answer(op: Op<Bytes>, now: nat, tag: string) returns (a: Answer<Bytes>)
      requires Valid() && AllCanonical(contents) && Askable(op)
      modifies this
      ensures Valid() && AllCanonical(contents)
      ensures contents == SweepStep(old(contents), op, now) && a == AnswerOf(old(contents), op, now)
    {
      hide Represents, Canonical, Split, Principal, NameOf;
      a := Silent;
      if !op.ListKeys? { CanonicalIsPrincipal(op.key); }
      match op {
        case ReadKey(key) =>
          var error, e := Read(key, now);
          a := Found(e);
        case WriteKey(key, value, x, c) =>
          var error := Put(key, value, x, c, now, tag);
        case DeleteKey(key) =>
          var error := Delete(key);
        case ListKeys =>
          a := Tell(now);
      }
    }

    /** The store refines the plain expiring map: over any run of calls at times that never fall, it
        answers as the map does. */
    method Serve(run: Run<Bytes>, tags: seq<string>, ghost from: nat) returns (answers: seq<Answer<Bytes>>)
      requires Valid() && AllCanonical(contents) && TimesFrom(run, from) && |tags| == |run|
      requires forall call :: call in run ==> Askable(call.0)
      modifies this
      ensures Valid() && AllCanonical(contents)
      ensures answers == PlainAnswers(old(contents), run)
    {
      hide Represents, Canonical, AnswerOf, SweepStep, Askable;
      ghost var was := contents;
      SweepingIsUnseen(was, was, run, from);
      answers := [];
      assert run[0..] == run;
      for i := 0 to |run|
        invariant Valid() && AllCanonical(contents)
        invariant SweepAnswers(was, run) == answers + SweepAnswers(contents, run[i..])
      {
        assert run[i..][0] == run[i] && run[i..][1..] == run[i + 1..] && run[i] in run;
        var a := Answer(run[i].0, run[i].1, tags[i]);
        answers := answers + [a];
      }
      assert run[|run|..] == [];
    }
  }

  predicate Askable(op: Op<Bytes>) { op.ListKeys? || (Split(op.key).Ok? && Canonical(op.key)) }

  /** Writing both files under temporary names and renaming them puts the entry at the key's place. */
  lemma PutRepresents(fs: Files, contents: Store<Bytes>, key: string, m: File, e: Entry<Bytes>, tag: string)
    requires Represents(fs, Disk(), contents) && Split(key).Ok? && ReadMeta(m) == (e.c, e.exp)
    ensures
      var v, sidecar := PathOf(key, ValueFile), PathOf(key, SidecarFile);
      var tv, tm := PathOf(key, TempFile(true, tag)), PathOf(key, TempFile(false, tag));
      Represents(((fs[tv := Data(e.value)] - {tv})[v := Data(e.value)][tm := m] - {tm})[sidecar := m], Disk(),
          contents[Principal(key) := e])
  {
    var name := Principal(key);
    PrincipalStorable(key);
    DiskApart();
    PathsOfOneKey(name, tag);
    var v, sidecar := PathOf(key, ValueFile), PathOf(key, SidecarFile);
    var tv, tm := PathOf(key, TempFile(true, tag)), PathOf(key, TempFile(false, tag));
    assert v == Disk().at(name, ValueFile) && sidecar == Disk().at(name, SidecarFile);
    assert tv == Disk().at(name, TempFile(true, tag)) && tm == Disk().at(name, TempFile(false, tag));
    hide Represents, PathOf, Apart, Split, Principal;
    WriteAndRename(fs, v, sidecar, tv, tm, Data(e.value), m);
    RepresentsPut(fs, Disk(), contents, name, m, e, tag, tag);
  }

  lemma PathsOfOneKey(key: string, tag: string)
    requires Storable(key)
    ensures
      var v, m, tv, tm := PathOf(key, ValueFile), PathOf(key, SidecarFile), PathOf(key, TempFile(true, tag)),
          PathOf(key, TempFile(false, tag));
      v != m && v != tv && v != tm && m != tv && m != tm && tv != tm
  {
    DiskApart();
    assert forall k :: Owner(FileAt(key, k)) == (key, k) by {
      assert Apart(Disk());
    }
    assert PathOf(key, ValueFile) == FileAt(key, ValueFile) && PathOf(key, SidecarFile) == FileAt(key, SidecarFile);
    assert PathOf(key, TempFile(true, tag)) == FileAt(key, TempFile(true, tag));
    assert PathOf(key, TempFile(false, tag)) == FileAt(key, TempFile(false, tag));
  }
}
