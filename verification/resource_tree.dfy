/** The bucketing and sorting half of `main`: every parsed specification
    adds file records to the bucket of its `(prefix, lang)` pair, then
    each bucket is sorted by file name. */
module ResourceTree {
  import opened Wrappers
  import opened Text
  import opened Files
  import opened PathSpecParser

  /** One file record, `{'file': ..., 'alias': ...}`, the alias only
      when given. */
  datatype FileEntry = FileEntry(file: string, alias: Option<string>)

  /** `qresource_dict`: prefix, then lang (either possibly absent), then
      the bucket's file records. */
  type Tree = map<Option<string>, map<Option<string>, seq<FileEntry>>>

  /** The regular files among `paths`, in order, each as an alias-less
      record. */
  function FilesAmong(fs: FileSystem, paths: seq<string>): (r: seq<FileEntry>)
    ensures forall e :: e in r <==> e.alias.None? && fs.IsFile(e.file) && e.file in paths
  {
    if paths == [] then []
    else
      var last := paths[|paths| - 1];
      var init := paths[..|paths| - 1];
      assert forall p :: p in paths <==> p in init || p == last;
      FilesAmong(fs, init) + (if fs.IsFile(last) then [FileEntry(last, None)] else [])
  }

  /** What one specification adds to its bucket (its meaning is stated by
      `ContributionMeaning`). */
  function Contribution(fs: FileSystem, spec: PathSpec): seq<FileEntry> {
    if fs.IsFile(spec.path) then [FileEntry(spec.path, spec.alias)]
    else FilesAmong(fs, fs.RGlob(spec.path))
  }

  /** Counted with multiplicity, the regular files among `paths` are
      alias-less records, each as often as its path occurs there, and
      nothing else. */
  lemma {:induction false} FilesAmongCounts(fs: FileSystem, paths: seq<string>)
    ensures forall e :: multiset(FilesAmong(fs, paths))[e] == (if e.alias.None? && fs.IsFile(e.file) then multiset(paths)[e.file] else 0)
    decreases |paths|
  {
    if paths != [] {
      var last := paths[|paths| - 1];
      var init := paths[..|paths| - 1];
      FilesAmongCounts(fs, init);
      assert paths == init + [last];
    }
  }

  /** A file gives one record carrying the specification's alias;
      anything else gives one alias-less record for every occurrence of
      a regular file in its `rglob` listing, and nothing more. */
  lemma ContributionMeaning(fs: FileSystem, spec: PathSpec)
    ensures fs.IsFile(spec.path) ==> Contribution(fs, spec) == [FileEntry(spec.path, spec.alias)]
    ensures !fs.IsFile(spec.path) ==>
      forall e :: e in Contribution(fs, spec) <==> e.alias.None? && fs.IsFile(e.file) && e.file in fs.RGlob(spec.path)
    ensures !fs.IsFile(spec.path) ==>
      forall e :: multiset(Contribution(fs, spec))[e] == (if e.alias.None? && fs.IsFile(e.file) then multiset(fs.RGlob(spec.path))[e.file] else 0)
    ensures forall e :: e in Contribution(fs, spec) ==> fs.IsFile(e.file)
  {
    FilesAmongCounts(fs, fs.RGlob(spec.path));
  }

  /** `d.get(key, [])` on the inner dictionary, `d.get(key, {})` on the
      outer one. */
  function Inner(tree: Tree, prefix: Option<string>): map<Option<string>, seq<FileEntry>> {
    if prefix in tree then tree[prefix] else map[]
  }

  function BucketOf(inner: map<Option<string>, seq<FileEntry>>, lang: Option<string>): seq<FileEntry> {
    if lang in inner then inner[lang] else []
  }

  /** One iteration of the bucketing loop: both `setdefault` calls, then
      the specification's records appended to its bucket. */
  function AddSpec(fs: FileSystem, tree: Tree, spec: PathSpec): Tree {
    var inner := Inner(tree, spec.prefix);
    tree[spec.prefix := inner[spec.lang := BucketOf(inner, spec.lang) + Contribution(fs, spec)]]
  }

  /** The buckets after the loop over `specs`. */
  function Bucketed(fs: FileSystem, specs: seq<PathSpec>): Tree {
    if specs == [] then map[]
    else AddSpec(fs, Bucketed(fs, specs[..|specs| - 1]), specs[|specs| - 1])
  }

  /** Some specification has this prefix and this lang. */
  predicate HasKey(specs: seq<PathSpec>, prefix: Option<string>, lang: Option<string>) {
    exists i :: 0 <= i < |specs| && specs[i].prefix == prefix && specs[i].lang == lang
  }

  /** Some specification has this prefix. */
  predicate HasPrefix(specs: seq<PathSpec>, prefix: Option<string>) {
    exists i :: 0 <= i < |specs| && specs[i].prefix == prefix
  }

  /** Reference definition of one bucket: the contributions of the
      specifications with that prefix and lang, in input order, nothing
      merged or dropped. */
  function Collected(fs: FileSystem, specs: seq<PathSpec>, prefix: Option<string>, lang: Option<string>): seq<FileEntry> {
    if specs == [] then []
    else
      var last := specs[|specs| - 1];
      Collected(fs, specs[..|specs| - 1], prefix, lang)
        + (if last.prefix == prefix && last.lang == lang then Contribution(fs, last) else [])
  }

  /** The last specification extends the buckets of the others. */
  lemma BucketedLast(fs: FileSystem, specs: seq<PathSpec>)
    requires specs != []
    ensures Bucketed(fs, specs) == AddSpec(fs, Bucketed(fs, specs[..|specs| - 1]), specs[|specs| - 1])
  {
  }

  /** The prefixes with a bucket are those of the specifications. */
  lemma {:induction false} BucketedPrefixes(fs: FileSystem, specs: seq<PathSpec>)
    ensures forall p :: p in Bucketed(fs, specs) <==> HasPrefix(specs, p)
  {
    if specs != [] {
      var init := specs[..|specs| - 1];
      var last := specs[|specs| - 1];
      BucketedPrefixes(fs, init);
      BucketedLast(fs, specs);
      forall p ensures p in Bucketed(fs, specs) <==> HasPrefix(specs, p) {
        if HasPrefix(init, p) {
          var i :| 0 <= i < |init| && init[i].prefix == p;
          assert specs[i] == init[i];
        }
        if HasPrefix(specs, p) && p != last.prefix {
          var i :| 0 <= i < |specs| && specs[i].prefix == p;
          assert init[i] == specs[i];
        }
      }
    }
  }

  /** The keys after one iteration: the specification's pair is added,
      nothing else changes. */
  lemma AddSpecKeys(fs: FileSystem, t: Tree, spec: PathSpec)
    ensures forall p :: p in AddSpec(fs, t, spec) <==> p in t || p == spec.prefix
    ensures forall p, l :: p in AddSpec(fs, t, spec) ==>
      (l in AddSpec(fs, t, spec)[p] <==> (p in t && l in t[p]) || (p == spec.prefix && l == spec.lang))
  {
  }

  /** The buckets are exactly the pairs that occur among the
      specifications, even when nothing was added to one. */
  lemma {:induction false} BucketedKeys(fs: FileSystem, specs: seq<PathSpec>)
    ensures forall p, l :: p in Bucketed(fs, specs) ==> (l in Bucketed(fs, specs)[p] <==> HasKey(specs, p, l))
  {
    if specs != [] {
      var init := specs[..|specs| - 1];
      var last := specs[|specs| - 1];
      var t := Bucketed(fs, init);
      BucketedKeys(fs, init);
      BucketedPrefixes(fs, init);
      BucketedLast(fs, specs);
      AddSpecKeys(fs, t, last);
      forall p, l ensures HasKey(specs, p, l) <==> HasKey(init, p, l) || (p == last.prefix && l == last.lang) {
        HasKeyOfPrefix(specs, |specs| - 1, p, l);
        if HasKey(init, p, l) {
          var i :| 0 <= i < |init| && init[i].prefix == p && init[i].lang == l;
          assert HasPrefix(init, p);
        }
        if HasKey(specs, p, l) && (p, l) != (last.prefix, last.lang) {
          var i :| 0 <= i < |specs| && specs[i].prefix == p && specs[i].lang == l;
          assert init[i] == specs[i];
        }
      }
    }
  }

  /** Each bucket holds the collected contributions of its
      specifications. */
  lemma {:induction false} BucketedContents(fs: FileSystem, specs: seq<PathSpec>)
    ensures forall p, l :: p in Bucketed(fs, specs) && l in Bucketed(fs, specs)[p] ==>
              Bucketed(fs, specs)[p][l] == Collected(fs, specs, p, l)
  {
    if specs != [] {
      var init := specs[..|specs| - 1];
      var last := specs[|specs| - 1];
      BucketedContents(fs, init);
      BucketedLast(fs, specs);
      var t := Bucketed(fs, init);
      var u := Bucketed(fs, specs);
      forall p, l | p in u && l in u[p] ensures u[p][l] == Collected(fs, specs, p, l) {
        if (p, l) != (last.prefix, last.lang) {
          assert u[p][l] == t[p][l];
        } else if !(p in t && l in t[p]) {
          BucketedKeys(fs, init);
          BucketedPrefixes(fs, init);
          CollectedWithoutKey(fs, init, p, l);
        }
      }
    }
  }

  /** Specifications of other pairs contribute nothing to a bucket. */
  lemma {:induction false} CollectedWithoutKey(fs: FileSystem, specs: seq<PathSpec>, prefix: Option<string>, lang: Option<string>)
    requires !HasKey(specs, prefix, lang)
    ensures Collected(fs, specs, prefix, lang) == []
  {
    if specs != [] {
      var init := specs[..|specs| - 1];
      HasKeyOfPrefix(specs, |specs| - 1, prefix, lang);
      CollectedWithoutKey(fs, init, prefix, lang);
    }
  }

  /** A pair found among the first `n` specifications is found among
      them all. */
  lemma HasKeyOfPrefix(specs: seq<PathSpec>, n: nat, prefix: Option<string>, lang: Option<string>)
    requires n <= |specs|
    ensures HasKey(specs[..n], prefix, lang) ==> HasKey(specs, prefix, lang)
  {
    if HasKey(specs[..n], prefix, lang) {
      var i :| 0 <= i < n && specs[..n][i].prefix == prefix && specs[..n][i].lang == lang;
      assert specs[i] == specs[..n][i];
    }
  }

  /** The `is_file` test and the `rglob` loop for one specification:
      what it appends to `fileList`. */
  method AppendContribution(fs: FileSystem, spec: PathSpec, fileList: seq<FileEntry>) returns (extended: seq<FileEntry>)
    ensures extended == fileList + Contribution(fs, spec)
  {
    extended := fileList;
    if fs.IsFile(spec.path) {
      extended := extended + [FileEntry(spec.path, spec.alias)];
    } else {
      var found := fs.RGlob(spec.path);
      var k := 0;
      while k < |found|
        invariant 0 <= k <= |found|
        invariant extended == fileList + FilesAmong(fs, found[..k])
      {
        assert found[..k + 1][..k] == found[..k];
        if fs.IsFile(found[k]) {
          extended := extended + [FileEntry(found[k], None)];
        }
        k := k + 1;
      }
      assert found[..k] == found;
    }
  }

  /** The bucketing loop of `main`. The per-bucket list is read with
      `setdefault`, extended, and written back. */
  method BuildBuckets(fs: FileSystem, specs: seq<PathSpec>) returns (tree: Tree)
    ensures tree == Bucketed(fs, specs)
    ensures forall p :: p in tree <==> HasPrefix(specs, p)
    ensures forall p, l :: p in tree ==> (l in tree[p] <==> HasKey(specs, p, l))
    ensures forall p, l :: p in tree && l in tree[p] ==> tree[p][l] == Collected(fs, specs, p, l)
  {
    tree := map[];
    var i := 0;
    while i < |specs|
      invariant 0 <= i <= |specs|
      invariant tree == Bucketed(fs, specs[..i])
    {
      var spec := specs[i];
      var prefixDict := Inner(tree, spec.prefix);
      var fileList := BucketOf(prefixDict, spec.lang);
      fileList := AppendContribution(fs, spec, fileList);
      tree := tree[spec.prefix := prefixDict[spec.lang := fileList]];
      assert specs[..i + 1][..i] == specs[..i];
      i := i + 1;
    }
    assert specs[..i] == specs;
    BucketedPrefixes(fs, specs);
    BucketedKeys(fs, specs);
    BucketedContents(fs, specs);
  }

  /** Ascending by file name under Python's string order. */
  predicate SortedByFile(s: seq<FileEntry>) {
    forall i, j :: 0 <= i < j < |s| ==> LexLe(s[i].file, s[j].file)
  }

  /** Insert `x` before the first record whose file name is not below
      its own: records with equal names keep `x` in front. */
  function InsertByFile(x: FileEntry, s: seq<FileEntry>): seq<FileEntry> {
    if s == [] || LexLe(x.file, s[0].file) then [x] + s
    else [s[0]] + InsertByFile(x, s[1..])
  }

  /** A record no later than every record of a sorted list can go in
      front of it. */
  lemma ConsSorted(a: FileEntry, rest: seq<FileEntry>)
    requires SortedByFile(rest)
    requires forall j :: 0 <= j < |rest| ==> LexLe(a.file, rest[j].file)
    ensures SortedByFile([a] + rest)
  {
    forall i, j | 0 <= i < j < |[a] + rest| ensures LexLe(([a] + rest)[i].file, ([a] + rest)[j].file) {
      assert ([a] + rest)[j] == rest[j - 1];
      if i > 0 {
        assert ([a] + rest)[i] == rest[i - 1];
      }
    }
  }

  /** Inserting into a sorted list adds `x` and keeps it sorted. */
  lemma {:induction false} InsertSorted(x: FileEntry, s: seq<FileEntry>)
    requires SortedByFile(s)
    ensures multiset(InsertByFile(x, s)) == multiset(s) + multiset{x}
    ensures SortedByFile(InsertByFile(x, s))
  {
    if s == [] {
    } else if LexLe(x.file, s[0].file) {
      forall j | 0 <= j < |s| ensures LexLe(x.file, s[j].file) {
        if j > 0 {
          LexLeTransitive(x.file, s[0].file, s[j].file);
        }
      }
      ConsSorted(x, s);
    } else {
      LexLeTotal(x.file, s[0].file);
      var tail := s[1..];
      var rest := InsertByFile(x, tail);
      InsertSorted(x, tail);
      assert s == [s[0]] + tail;
      forall j | 0 <= j < |rest| ensures LexLe(s[0].file, rest[j].file) {
        assert rest[j] in multiset(rest);
        if rest[j] != x {
          assert rest[j] in multiset(tail);
          var k :| 0 <= k < |tail| && tail[k] == rest[j];
          assert s[k + 1] == rest[j];
        }
      }
      ConsSorted(s[0], rest);
    }
  }

  /** `sorted(bucket, key=lambda x: x['file'])`: a stable sort by file
      name. */
  function SortByFile(s: seq<FileEntry>): seq<FileEntry> {
    if s == [] then [] else InsertByFile(s[0], SortByFile(s[1..]))
  }

  /** The sort returns the same records, sorted by file name. */
  lemma {:induction false} SortByFileSorts(s: seq<FileEntry>)
    ensures multiset(SortByFile(s)) == multiset(s)
    ensures SortedByFile(SortByFile(s))
  {
    if s != [] {
      SortByFileSorts(s[1..]);
      InsertSorted(s[0], SortByFile(s[1..]));
      assert s == [s[0]] + s[1..];
    }
  }

  /** The records of `s` with file name `f`, in order. */
  function WithFile(s: seq<FileEntry>, f: string): seq<FileEntry> {
    if s == [] then []
    else (if s[0].file == f then [s[0]] else []) + WithFile(s[1..], f)
  }

  /** Insertion puts `x` before every record with the same file name, so
      among the records with one file name it goes first. */
  lemma {:induction false} InsertStable(x: FileEntry, s: seq<FileEntry>, f: string)
    ensures WithFile(InsertByFile(x, s), f) == (if x.file == f then [x] else []) + WithFile(s, f)
  {
    if s == [] {
    } else if LexLe(x.file, s[0].file) {
      WithFileCons(x, s, f);
    } else {
      InsertStable(x, s[1..], f);
      InsertStablePast(x, s, f);
    }
  }

  /** The step of InsertStable where `x` goes past the first record. */
  lemma InsertStablePast(x: FileEntry, s: seq<FileEntry>, f: string)
    requires s != [] && !LexLe(x.file, s[0].file)
    requires WithFile(InsertByFile(x, s[1..]), f) == (if x.file == f then [x] else []) + WithFile(s[1..], f)
    ensures WithFile(InsertByFile(x, s), f) == (if x.file == f then [x] else []) + WithFile(s, f)
  {
    var tail := s[1..];
    var rest := InsertByFile(x, tail);
    assert InsertByFile(x, s) == [s[0]] + rest;
    assert s == [s[0]] + tail;
    WithFileCons(s[0], rest, f);
    WithFileCons(s[0], tail, f);
    if x.file == f {
      LexLeReflexive(x.file);
      assert s[0].file != f;
    }
  }

  lemma WithFileCons(a: FileEntry, s: seq<FileEntry>, f: string)
    ensures WithFile([a] + s, f) == (if a.file == f then [a] else []) + WithFile(s, f)
  {
    assert ([a] + s)[1..] == s;
  }

  /** Stability: records with the same file name come out in the order
      they went in. */
  lemma {:induction false} SortStable(s: seq<FileEntry>, f: string)
    ensures WithFile(SortByFile(s), f) == WithFile(s, f)
  {
    if s != [] {
      SortStable(s[1..], f);
      InsertStable(s[0], SortByFile(s[1..]), f);
    }
  }

  /** A sorted list is left as it is. */
  lemma {:induction false} SortSortedUnchanged(s: seq<FileEntry>)
    requires SortedByFile(s)
    ensures SortByFile(s) == s
  {
    if s != [] {
      SortSortedUnchanged(s[1..]);
      assert s[1..] == [] || LexLe(s[0].file, s[1..][0].file);
      assert s == [s[0]] + s[1..];
    }
  }

  /** Every bucket sorted; the keys unchanged. */
  function SortedTree(tree: Tree): Tree {
    map p | p in tree :: map l | l in tree[p] :: SortByFile(tree[p][l])
  }

  /** The sorted tree has the same prefixes and langs, and each bucket
      holds the same records, sorted by file name. */
  lemma SortedTreeBuckets(tree: Tree)
    ensures SortedTree(tree).Keys == tree.Keys
    ensures forall p :: p in tree ==> SortedTree(tree)[p].Keys == tree[p].Keys
    ensures forall p, l :: p in tree && l in tree[p] ==>
      SortedByFile(SortedTree(tree)[p][l]) && multiset(SortedTree(tree)[p][l]) == multiset(tree[p][l])
  {
    forall p, l | p in tree && l in tree[p]
      ensures SortedByFile(SortedTree(tree)[p][l]) && multiset(SortedTree(tree)[p][l]) == multiset(tree[p][l])
    {
      SortByFileSorts(tree[p][l]);
    }
  }

  /** The sorting loop of `main`: every bucket of every prefix is
      replaced by its sorted copy. */
  method SortBuckets(tree: Tree) returns (sorted: Tree)
    ensures sorted == SortedTree(tree)
  {
    sorted := tree;
    var prefixes := tree.Keys;
    while prefixes != {}
      invariant prefixes <= tree.Keys
      invariant sorted.Keys == tree.Keys
      invariant forall p :: p in tree && p !in prefixes ==> sorted[p] == SortedTree(tree)[p]
      invariant forall p :: p in prefixes ==> sorted[p] == tree[p]
      decreases prefixes
    {
      var prefix :| prefix in prefixes;
      var inner := sorted[prefix];
      var langs := inner.Keys;
      while langs != {}
        invariant langs <= tree[prefix].Keys
        invariant inner.Keys == tree[prefix].Keys
        invariant forall l :: l in inner && l !in langs ==> inner[l] == SortByFile(tree[prefix][l])
        invariant forall l :: l in langs ==> inner[l] == tree[prefix][l]
        decreases langs
      {
        var lang :| lang in langs;
        inner := inner[lang := SortByFile(inner[lang])];
        langs := langs - {lang};
      }
      sorted := sorted[prefix := inner];
      prefixes := prefixes - {prefix};
    }
  }

  /** One more specification extends the bucket of its own pair. */
  lemma CollectedSnoc(fs: FileSystem, s: seq<PathSpec>, spec: PathSpec, prefix: Option<string>, lang: Option<string>)
    ensures Collected(fs, s + [spec], prefix, lang)
         == Collected(fs, s, prefix, lang) + (if spec.prefix == prefix && spec.lang == lang then Contribution(fs, spec) else [])
  {
    assert (s + [spec])[..|s|] == s;
  }

  /** Buckets of consecutive runs of specifications concatenate. */
  lemma {:induction false} CollectedConcat(fs: FileSystem, a: seq<PathSpec>, b: seq<PathSpec>, prefix: Option<string>, lang: Option<string>)
    ensures Collected(fs, a + b, prefix, lang) == Collected(fs, a, prefix, lang) + Collected(fs, b, prefix, lang)
    decreases |b|
  {
    if b == [] {
      assert a + b == a;
    } else {
      var init, last := b[..|b| - 1], b[|b| - 1];
      CollectedConcat(fs, a, init, prefix, lang);
      CollectedConcatStep(fs, a, init, last, prefix, lang);
      assert b == init + [last];
    }
  }

  /** The inductive step of `CollectedConcat`. */
  lemma CollectedConcatStep(fs: FileSystem, a: seq<PathSpec>, b: seq<PathSpec>, last: PathSpec, prefix: Option<string>, lang: Option<string>)
    requires Collected(fs, a + b, prefix, lang) == Collected(fs, a, prefix, lang) + Collected(fs, b, prefix, lang)
    ensures Collected(fs, a + (b + [last]), prefix, lang) == Collected(fs, a, prefix, lang) + Collected(fs, b + [last], prefix, lang)
  {
    var ca, cb := Collected(fs, a, prefix, lang), Collected(fs, b, prefix, lang);
    var added := if last.prefix == prefix && last.lang == lang then Contribution(fs, last) else [];
    assert a + (b + [last]) == (a + b) + [last];
    CollectedSnoc(fs, a + b, last, prefix, lang);
    CollectedSnoc(fs, b, last, prefix, lang);
    ConcatAssoc(ca, cb, added);
  }

  lemma ConcatAssoc(x: seq<FileEntry>, y: seq<FileEntry>, z: seq<FileEntry>)
    ensures (x + y) + z == x + (y + z)
  {
  }

  /** Taking out the specification at `k` takes its contribution out of
      the middle of the bucket. */
  lemma CollectedWithout(fs: FileSystem, t: seq<PathSpec>, k: nat, prefix: Option<string>, lang: Option<string>)
    requires k < |t|
    ensures Collected(fs, t, prefix, lang)
         == Collected(fs, t[..k], prefix, lang) + Collected(fs, [t[k]], prefix, lang) + Collected(fs, t[k + 1..], prefix, lang)
    ensures Collected(fs, t[..k] + t[k + 1..], prefix, lang)
         == Collected(fs, t[..k], prefix, lang) + Collected(fs, t[k + 1..], prefix, lang)
  {
    assert t == t[..k] + [t[k]] + t[k + 1..];
    CollectedConcat(fs, t[..k] + [t[k]], t[k + 1..], prefix, lang);
    CollectedConcat(fs, t[..k], [t[k]], prefix, lang);
    CollectedConcat(fs, t[..k], t[k + 1..], prefix, lang);
  }

  /** Removing one occurrence of `t[k]` from a permutation of `init + [t[k]]`
      leaves a permutation of `init`. */
  lemma PermutationWithout(init: seq<PathSpec>, t: seq<PathSpec>, k: nat)
    requires k < |t| && multiset(init + [t[k]]) == multiset(t)
    ensures multiset(init) == multiset(t[..k] + t[k + 1..])
  {
    assert t == t[..k] + [t[k]] + t[k + 1..];
    assert multiset(t) == multiset(t[..k] + t[k + 1..]) + multiset{t[k]};
    MultisetCancel(multiset(init), multiset(t[..k] + t[k + 1..]), multiset{t[k]});
  }

  /** Reordering the specifications keeps every bucket's records, counted
      with multiplicity; only their order may change. */
  lemma {:induction false} CollectedPermutation(fs: FileSystem, s: seq<PathSpec>, t: seq<PathSpec>, prefix: Option<string>, lang: Option<string>)
    requires multiset(s) == multiset(t)
    ensures multiset(Collected(fs, s, prefix, lang)) == multiset(Collected(fs, t, prefix, lang))
    decreases |s|
  {
    if s == [] {
      assert |t| == |multiset(t)| == 0;
    } else {
      var x := s[|s| - 1];
      var init := s[..|s| - 1];
      assert s == init + [x];
      assert x in multiset(t);
      var k :| 0 <= k < |t| && t[k] == x;
      PermutationWithout(init, t, k);
      CollectedPermutation(fs, init, t[..k] + t[k + 1..], prefix, lang);
      CollectedWithout(fs, t, k, prefix, lang);
      CollectedConcat(fs, init, [x], prefix, lang);
    }
  }

  lemma MultisetCancel(a: multiset<PathSpec>, b: multiset<PathSpec>, c: multiset<PathSpec>)
    requires a + c == b + c
    ensures a == b
  {
    forall e ensures a[e] == b[e] {
      assert (a + c)[e] == (b + c)[e];
    }
  }

  /** Reordering the specifications keeps the same prefixes and pairs. */
  lemma PermutationKeys(s: seq<PathSpec>, t: seq<PathSpec>)
    requires multiset(s) == multiset(t)
    ensures forall p :: HasPrefix(s, p) <==> HasPrefix(t, p)
    ensures forall p, l :: HasKey(s, p, l) <==> HasKey(t, p, l)
  {
    forall p ensures HasPrefix(s, p) ==> HasPrefix(t, p) {
      if HasPrefix(s, p) {
        var i :| 0 <= i < |s| && s[i].prefix == p;
        assert s[i] in multiset(t);
      }
    }
    forall p ensures HasPrefix(t, p) ==> HasPrefix(s, p) {
      if HasPrefix(t, p) {
        var i :| 0 <= i < |t| && t[i].prefix == p;
        assert t[i] in multiset(s);
      }
    }
    forall p, l ensures HasKey(s, p, l) ==> HasKey(t, p, l) {
      if HasKey(s, p, l) {
        var i :| 0 <= i < |s| && s[i].prefix == p && s[i].lang == l;
        assert s[i] in multiset(t);
      }
    }
    forall p, l ensures HasKey(t, p, l) ==> HasKey(s, p, l) {
      if HasKey(t, p, l) {
        var i :| 0 <= i < |t| && t[i].prefix == p && t[i].lang == l;
        assert t[i] in multiset(s);
      }
    }
  }

  /** What does not depend on the order of the specifications: the
      prefixes, the langs under each, and each bucket's records counted
      with multiplicity. Only the order inside a bucket may differ. */
  lemma BucketsIgnoreOrder(fs: FileSystem, s: seq<PathSpec>, t: seq<PathSpec>)
    requires multiset(s) == multiset(t)
    ensures Bucketed(fs, s).Keys == Bucketed(fs, t).Keys
    ensures forall p :: p in Bucketed(fs, s) ==> Bucketed(fs, s)[p].Keys == Bucketed(fs, t)[p].Keys
    ensures forall p, l :: p in Bucketed(fs, s) && l in Bucketed(fs, s)[p] ==>
      multiset(Bucketed(fs, s)[p][l]) == multiset(Bucketed(fs, t)[p][l])
  {
    PermutationKeys(s, t);
    BucketedPrefixes(fs, s);
    BucketedPrefixes(fs, t);
    BucketedKeys(fs, s);
    BucketedKeys(fs, t);
    BucketedContents(fs, s);
    BucketedContents(fs, t);
    forall p, l | p in Bucketed(fs, s) && l in Bucketed(fs, s)[p]
      ensures multiset(Bucketed(fs, s)[p][l]) == multiset(Bucketed(fs, t)[p][l])
    {
      CollectedPermutation(fs, s, t, p, l);
    }
  }

  /** Counted with multiplicity, the records with file name `f` are those
      of `s` with that name. */
  lemma {:induction false} WithFileCounts(s: seq<FileEntry>, f: string)
    ensures forall e :: multiset(WithFile(s, f))[e] == if e.file == f then multiset(s)[e] else 0
  {
    if s != [] {
      WithFileCounts(s[1..], f);
      assert s == [s[0]] + s[1..];
    }
  }

  /** What `WithFile` keeps are records of `s` with that file name. */
  lemma {:induction false} WithFileMembers(s: seq<FileEntry>, f: string)
    ensures forall e :: e in WithFile(s, f) ==> e in s && e.file == f
  {
    if s != [] {
      WithFileMembers(s[1..], f);
    }
  }

  /** The first record of a list sorted by file name has the least file
      name. */
  lemma SortedHeadLeast(s: seq<FileEntry>, e: FileEntry)
    requires SortedByFile(s) && e in s
    ensures LexLe(s[0].file, e.file)
  {
    var j :| 0 <= j < |s| && s[j] == e;
    if j == 0 {
      LexLeReflexive(e.file);
    }
  }

  /** Two lists with the same first record that agree on every file name
      still agree once that record is dropped. */
  lemma TailsAgree(a: seq<FileEntry>, b: seq<FileEntry>)
    requires a != [] && b != [] && a[0] == b[0]
    requires forall f :: WithFile(a, f) == WithFile(b, f)
    ensures forall f :: WithFile(a[1..], f) == WithFile(b[1..], f)
  {
    forall f ensures WithFile(a[1..], f) == WithFile(b[1..], f) {
      var head := if a[0].file == f then [a[0]] else [];
      assert WithFile(a, f) == head + WithFile(a[1..], f);
      assert WithFile(b, f) == head + WithFile(b[1..], f);
      assert (head + WithFile(a[1..], f))[|head|..] == WithFile(a[1..], f);
      assert (head + WithFile(b[1..], f))[|head|..] == WithFile(b[1..], f);
    }
  }

  /** Two lists sorted by file name begin with the same record when they
      agree on the records of every file name. */
  lemma SameHead(a: seq<FileEntry>, b: seq<FileEntry>)
    requires a != [] && b != [] && SortedByFile(a) && SortedByFile(b)
    requires forall f :: WithFile(a, f) == WithFile(b, f)
    ensures a[0] == b[0]
  {
    var f, g := a[0].file, b[0].file;
    assert WithFile(a, f) == [a[0]] + WithFile(a[1..], f);
    assert WithFile(b, g) == [b[0]] + WithFile(b[1..], g);
    WithFileMembers(b, f);
    WithFileMembers(a, g);
    assert a[0] in WithFile(b, f);
    assert b[0] in WithFile(a, g);
    SortedHeadLeast(b, a[0]);
    SortedHeadLeast(a, b[0]);
    LexLeAntisymmetric(f, g);
    assert WithFile(b, f)[0] == b[0];
  }

  /** Two lists sorted by file name that agree on the records of every
      file name are the same list. */
  lemma {:induction false} SortedByWithFile(a: seq<FileEntry>, b: seq<FileEntry>)
    requires SortedByFile(a) && SortedByFile(b)
    requires forall f :: WithFile(a, f) == WithFile(b, f)
    ensures a == b
    decreases |a|
  {
    if a != [] && b == [] {
      WithFileFirst(a);
    } else if a == [] && b != [] {
      WithFileFirst(b);
    } else if a != [] {
      SameHead(a, b);
      TailsAgree(a, b);
      SortedByWithFile(a[1..], b[1..]);
      assert a == [a[0]] + a[1..] && b == [b[0]] + b[1..];
    }
  }

  /** A list holds each file name at most once. */
  ghost predicate FilesOnce(s: seq<FileEntry>) {
    forall f :: |WithFile(s, f)| <= 1
  }

  /** A non-empty list has a record with its first file name. */
  lemma WithFileFirst(s: seq<FileEntry>)
    requires s != []
    ensures WithFile(s, s[0].file) != []
  {
  }

  /** Reordered lists keep the records of each file name, counted with
      multiplicity. */
  lemma WithFilePermutation(a: seq<FileEntry>, b: seq<FileEntry>, f: string)
    requires multiset(a) == multiset(b)
    ensures multiset(WithFile(a, f)) == multiset(WithFile(b, f))
  {
    WithFileCounts(a, f);
    WithFileCounts(b, f);
    forall e ensures multiset(WithFile(a, f))[e] == multiset(WithFile(b, f))[e] {
    }
  }

  /** Lists of at most one element with the same contents are equal. */
  lemma ShortListsAlike(x: seq<FileEntry>, y: seq<FileEntry>)
    requires |x| <= 1 && multiset(x) == multiset(y)
    ensures x == y
  {
    assert |y| == |multiset(y)| == |multiset(x)| == |x|;
    if |x| == 1 {
      assert x[0] in multiset(y);
    }
  }

  /** Reordered lists agree on a file name they hold at most once. */
  lemma OnceAgree(a: seq<FileEntry>, b: seq<FileEntry>, f: string)
    requires multiset(a) == multiset(b) && |WithFile(a, f)| <= 1
    ensures WithFile(a, f) == WithFile(b, f)
  {
    WithFilePermutation(a, b, f);
    ShortListsAlike(WithFile(a, f), WithFile(b, f));
  }

  /** Records holding each file name at most once are put in the same
      order by the sort, whatever order they come in. */
  lemma SortIgnoresOrder(a: seq<FileEntry>, b: seq<FileEntry>)
    requires multiset(a) == multiset(b) && FilesOnce(a)
    ensures SortByFile(a) == SortByFile(b)
  {
    SortByFileSorts(a);
    SortByFileSorts(b);
    forall f ensures WithFile(SortByFile(a), f) == WithFile(SortByFile(b), f) {
      SortStable(a, f);
      SortStable(b, f);
      OnceAgree(a, b, f);
    }
    SortedByWithFile(SortByFile(a), SortByFile(b));
  }

  /** Trees with the same keys whose buckets sort alike sort alike. */
  lemma SortedTreeAlike(u: Tree, v: Tree)
    requires u.Keys == v.Keys && forall p :: p in u ==> u[p].Keys == v[p].Keys
    requires forall p, l :: p in u && l in u[p] ==> SortByFile(u[p][l]) == SortByFile(v[p][l])
    ensures SortedTree(u) == SortedTree(v)
  {
    var su, sv := SortedTree(u), SortedTree(v);
    forall p | p in u ensures su[p] == sv[p] {
      assert su[p].Keys == sv[p].Keys;
    }
  }

  /** When no bucket holds a file name twice, the sorted tree does not
      depend on the order of the specifications at all. */
  lemma SortedTreeIgnoresOrder(fs: FileSystem, s: seq<PathSpec>, t: seq<PathSpec>)
    requires multiset(s) == multiset(t)
    requires forall p, l :: FilesOnce(Collected(fs, s, p, l))
    ensures SortedTree(Bucketed(fs, s)) == SortedTree(Bucketed(fs, t))
  {
    var bs, bt := Bucketed(fs, s), Bucketed(fs, t);
    BucketsIgnoreOrder(fs, s, t);
    BucketedContents(fs, s);
    forall p, l | p in bs && l in bs[p] ensures SortByFile(bs[p][l]) == SortByFile(bt[p][l]) {
      assert FilesOnce(Collected(fs, s, p, l));
      SortIgnoresOrder(bs[p][l], bt[p][l]);
    }
    SortedTreeAlike(bs, bt);
  }
}
