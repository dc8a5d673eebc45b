/** `main`, without argparse and the XML writer: the positional tokens
    are parsed first (argparse converts them while reading the command
    line), then the `--file` lines if given; the specifications from the
    file come before those from the command line, are bucketed, sorted
    and assembled, and the result becomes the element tree. */
module Generator {
  import opened Wrappers
  import opened Text
  import opened Files
  import opened PathSpecParser
  import opened PathSpecSyntax
  import opened BatchReader
  import opened ResourceTree
  import opened Manifest
  import opened QrcTree

  /** The document `main` writes for a list of specifications. */
  function Output(fs: FileSystem, version: string, specs: seq<PathSpec>): Document {
    Document(version, Assemble(SortedTree(Bucketed(fs, specs))))
  }

  /** Every record in a bucket names a regular file, and a record with an
      alias comes from a file specification of that bucket with that
      alias. */
  lemma {:induction false} CollectedRecords(fs: FileSystem, specs: seq<PathSpec>, prefix: Option<string>, lang: Option<string>)
    ensures forall e :: e in Collected(fs, specs, prefix, lang) ==> fs.IsFile(e.file)
    ensures forall e :: e in Collected(fs, specs, prefix, lang) && e.alias.Some? ==>
      exists i :: 0 <= i < |specs| && specs[i] == PathSpec(prefix, e.alias, lang, e.file)
  {
    if specs != [] {
      var init := specs[..|specs| - 1];
      var last := specs[|specs| - 1];
      CollectedRecords(fs, init, prefix, lang);
      forall e | e in Collected(fs, specs, prefix, lang) && e.alias.Some?
        ensures exists i :: 0 <= i < |specs| && specs[i] == PathSpec(prefix, e.alias, lang, e.file)
      {
        if e in Collected(fs, init, prefix, lang) {
          var i :| 0 <= i < |init| && init[i] == PathSpec(prefix, e.alias, lang, e.file);
          assert specs[i] == init[i];
        } else {
          assert specs[|specs| - 1] == PathSpec(prefix, e.alias, lang, e.file);
        }
      }
    }
  }

  /** A specification naming a regular file puts its record, with its
      alias, into its bucket. */
  lemma {:induction false} FileSpecCollected(fs: FileSystem, specs: seq<PathSpec>, i: nat)
    requires i < |specs| && fs.IsFile(specs[i].path)
    ensures FileEntry(specs[i].path, specs[i].alias) in Collected(fs, specs, specs[i].prefix, specs[i].lang)
  {
    var init := specs[..|specs| - 1];
    if i < |init| {
      assert init[i] == specs[i];
      FileSpecCollected(fs, init, i);
    }
  }

  /** End to end: every record written names a regular file; a record
      with an alias stems from a file specification with that alias,
      prefix and lang; and every file specification is written, with its
      alias, in the group of its prefix and lang. */
  lemma OutputRecords(fs: FileSystem, version: string, specs: seq<PathSpec>)
    ensures forall g, e :: g in Output(fs, version, specs).resources && e in g.files ==> fs.IsFile(e.file)
    ensures forall g, e :: g in Output(fs, version, specs).resources && e in g.files && e.alias.Some? ==>
      exists i :: 0 <= i < |specs| && specs[i] == PathSpec(g.prefix, e.alias, g.lang, e.file)
    ensures forall i :: 0 <= i < |specs| && fs.IsFile(specs[i].path) ==>
      exists g :: (g in Output(fs, version, specs).resources && g.prefix == specs[i].prefix && g.lang == specs[i].lang &&
        FileEntry(specs[i].path, specs[i].alias) in g.files)
  {
    var tree := Bucketed(fs, specs);
    var sorted := SortedTree(tree);
    var groups := Output(fs, version, specs).resources;
    AssembleLists(sorted);
    SortedTreeBuckets(tree);
    BucketedPrefixes(fs, specs);
    BucketedKeys(fs, specs);
    BucketedContents(fs, specs);
    forall g, e | g in groups && e in g.files
      ensures fs.IsFile(e.file)
      ensures e.alias.Some? ==> exists i :: 0 <= i < |specs| && specs[i] == PathSpec(g.prefix, e.alias, g.lang, e.file)
    {
      assert IsBucketGroup(sorted, g);
      assert e in multiset(tree[g.prefix][g.lang]);
      CollectedRecords(fs, specs, g.prefix, g.lang);
    }
    forall i | 0 <= i < |specs| && fs.IsFile(specs[i].path)
      ensures exists g :: (g in groups && g.prefix == specs[i].prefix && g.lang == specs[i].lang &&
        FileEntry(specs[i].path, specs[i].alias) in g.files)
    {
      var p := specs[i].prefix;
      var l := specs[i].lang;
      assert HasPrefix(specs, p) && HasKey(specs, p, l);
      FileSpecCollected(fs, specs, i);
      var g := Group(p, l, sorted[p][l]);
      assert FileEntry(specs[i].path, specs[i].alias) in multiset(sorted[p][l]);
      assert IsBucketGroup(sorted, g);
    }
  }

  /** The bucketing, sorting, assembly and tree building of `main` for
      a parsed list of specifications. */
  method BuildTree(fs: FileSystem, pathList: seq<PathSpec>, version: string) returns (root: Element)
    ensures DecodeRcc(root) == Some(Output(fs, version, pathList))
  {
    var tree := BuildBuckets(fs, pathList);
    tree := SortBuckets(tree);
    var groups := AssembleGroups(tree);
    root := BuildElementTree(Document(version, groups));
  }

  /** The specifications read with `--file`, none without it. */
  function FromFile(fs: FileSystem, fileLines: Option<seq<string>>): Result<seq<PathSpec>, SpecError> {
    if fileLines.None? then Ok([]) else FileSpecs(fs, fileLines.value)
  }

  /** What `main` produces: the error of the tokens if one fails, else
      the error of the file if one of its lines fails, else the document
      of the file's specifications followed by the tokens'. */
  function Outcome(fs: FileSystem, tokens: seq<string>, fileLines: Option<seq<string>>, version: string): Result<Document, SpecError> {
    match ParseAll(tokens, Parser(fs))
    case Err(e) => Err(e)
    case Ok(tokenSpecs) =>
      match FromFile(fs, fileLines)
      case Err(e) => Err(e)
      case Ok(fileSpecs) => Ok(Output(fs, version, fileSpecs + tokenSpecs))
  }

  /** The run succeeds exactly when every token parses and, with
      `--file`, every non-blank line of the file parses. */
  lemma OutcomeOk(fs: FileSystem, tokens: seq<string>, fileLines: Option<seq<string>>, version: string)
    ensures Outcome(fs, tokens, fileLines, version).Ok? <==>
      (forall i :: 0 <= i < |tokens| ==> ParsePathData(fs, tokens[i]).Ok?) &&
      (fileLines.Some? ==> forall i :: 0 <= i < |fileLines.value| && Strip(fileLines.value[i]) != [] ==>
         ParsePathData(fs, fileLines.value[i]).Ok?)
  {
    ParseAllOk(tokens, Parser(fs));
    if fileLines.Some? {
      FileSpecsOk(fs, fileLines.value);
    }
  }

  /** argparse converts the tokens before the file is read: when a token
      fails, the run fails with the error of the first token that
      fails. */
  lemma OutcomeTokenErr(fs: FileSystem, tokens: seq<string>, fileLines: Option<seq<string>>, version: string)
    requires exists i :: 0 <= i < |tokens| && ParsePathData(fs, tokens[i]).Err?
    ensures Outcome(fs, tokens, fileLines, version).Err?
    ensures exists i :: (0 <= i < |tokens| && ParsePathData(fs, tokens[i]) == Err(Outcome(fs, tokens, fileLines, version).error) &&
      forall j :: 0 <= j < i ==> ParsePathData(fs, tokens[j]).Ok?)
  {
    ParseAllOk(tokens, Parser(fs));
    ParseAllErr(tokens, Parser(fs));
  }

  /** When every token parses, a failed run reports the error of a
      non-blank line of the file. */
  lemma OutcomeFileErr(fs: FileSystem, tokens: seq<string>, fileLines: Option<seq<string>>, version: string)
    requires Outcome(fs, tokens, fileLines, version).Err?
    requires forall i :: 0 <= i < |tokens| ==> ParsePathData(fs, tokens[i]).Ok?
    ensures fileLines.Some?
    ensures exists i :: (0 <= i < |fileLines.value| && Strip(fileLines.value[i]) != [] &&
      ParsePathData(fs, fileLines.value[i]) == Err(Outcome(fs, tokens, fileLines, version).error))
  {
    ParseAllOk(tokens, Parser(fs));
    FileSpecsErr(fs, fileLines.value);
  }

  /** Two `--file` inputs with the same non-blank lines once stripped
      give the same result, whatever their order and however many blank
      or repeated lines they hold. */
  lemma OutcomeLineOrder(fs: FileSystem, tokens: seq<string>, a: seq<string>, b: seq<string>, version: string)
    requires forall i :: 0 <= i < |a| && Strip(a[i]) != [] ==> exists j :: 0 <= j < |b| && Strip(b[j]) == Strip(a[i])
    requires forall j :: 0 <= j < |b| && Strip(b[j]) != [] ==> exists i :: 0 <= i < |a| && Strip(a[i]) == Strip(b[j])
    ensures Outcome(fs, tokens, Some(a), version) == Outcome(fs, tokens, Some(b), version)
  {
    FileSpecsLineOrder(fs, a, b);
  }

  /** When no bucket would hold a file name twice, reordering the
      specifications does not change the document. */
  lemma OutputIgnoresOrder(fs: FileSystem, version: string, s: seq<PathSpec>, t: seq<PathSpec>)
    requires multiset(s) == multiset(t)
    requires forall p, l :: FilesOnce(Collected(fs, s, p, l))
    ensures Output(fs, version, s) == Output(fs, version, t)
  {
    SortedTreeIgnoresOrder(fs, s, t);
  }

  /** Two lines naming the same file with different aliases. Both
      orders are enumerations `ParseFile` allows for those lines, and the
      two orders give different documents: the stable sort keeps the
      records of one file name in the order they were read. */
  lemma FileOrderMatters(fs: FileSystem, a: PathSpec, b: PathSpec)
    requires fs == FileSystem({"f"}, {"f"}, {}, map[])
    requires a == PathSpec(None, Some("a"), None, "f") && b == PathSpec(None, Some("b"), None, "f")
    ensures fs.Valid()
    ensures Enumerates([Render(a), Render(b)], DistinctTokens([Render(a), Render(b)]))
    ensures Enumerates([Render(b), Render(a)], DistinctTokens([Render(a), Render(b)]))
    ensures ParsePathData(fs, Render(a)) == Ok(a) && ParsePathData(fs, Render(b)) == Ok(b)
    ensures Output(fs, "1.0", [a, b]) != Output(fs, "1.0", [b, a])
  {
    TokenOfSpec(fs, a);
    TokenOfSpec(fs, b);
    TwoDistinctTokens(Render(a), Render(b));
    OrderChangesOutput(fs, "1.0", a, b);
  }

  /** Two different stripped non-blank lines are two tokens, listed in
      either order. */
  lemma TwoDistinctTokens(x: string, y: string)
    requires x != y && x != [] && y != [] && Strip(x) == x && Strip(y) == y
    ensures Enumerates([x, y], DistinctTokens([x, y]))
    ensures Enumerates([y, x], DistinctTokens([x, y]))
  {
    var lines := [x, y];
    assert Strip(lines[0]) == x && Strip(lines[1]) == y;
    assert DistinctTokens(lines) == {x, y};
  }

  /** Swapping two alias specifications of the example's one file swaps
      their records in the written group. */
  lemma OrderChangesOutput(fs: FileSystem, version: string, a: PathSpec, b: PathSpec)
    requires fs == FileSystem({"f"}, {"f"}, {}, map[])
    requires a.prefix.None? && a.lang.None? && a.path == "f" && b.prefix.None? && b.lang.None? && b.path == "f"
    requires a.alias != b.alias
    ensures Output(fs, version, [a, b]) != Output(fs, version, [b, a])
  {
    var ea, eb := FileEntry("f", a.alias), FileEntry("f", b.alias);
    SameFileBucket(fs, a, b);
    SameFileBucket(fs, b, a);
    var t1, t2 := SortedTree(Bucketed(fs, [a, b])), SortedTree(Bucketed(fs, [b, a]));
    if Output(fs, version, [a, b]) == Output(fs, version, [b, a]) {
      AssembleLists(t1);
      AssembleLists(t2);
      assert IsBucketGroup(t1, Group(None, None, [ea, eb]));
      assert false;
    }
  }

  /** A specification of the example renders as a stripped non-blank
      token that reads back as itself. */
  lemma TokenOfSpec(fs: FileSystem, spec: PathSpec)
    requires fs == FileSystem({"f"}, {"f"}, {}, map[])
    requires spec.prefix.None? && spec.lang.None? && spec.path == "f"
    requires spec.alias.Some? && |spec.alias.value| == 1 && 'a' <= spec.alias.value[0] <= 'z'
    ensures Render(spec) != [] && Strip(Render(spec)) == Render(spec)
    ensures ParsePathData(fs, Render(spec)) == Ok(spec)
  {
    var token := "alias:" + spec.alias.value + ";path:f";
    var v := spec.alias.value;
    assert Fields(spec) == [("alias", v), ("path", "f")];
    var items := Items(Fields(spec));
    assert items[0] == "alias" + [':'] + v == "alias:" + v;
    assert items[1] == "path" + [':'] + "f" == "path:f";
    assert items == ["alias:" + v, "path:f"];
    assert items[1..] == ["path:f"];
    assert Join(items, ';') == "alias:" + v + ";" + "path:f";
    assert Render(spec) == token;
    StripTrimmed(token);
    assert Lower(spec.path) == spec.path;
    RenderRoundTrip(fs, spec);
  }

  /** Two alias specifications of the example's one file fill one bucket,
      sorted in the order they came. */
  lemma SameFileBucket(fs: FileSystem, x: PathSpec, y: PathSpec)
    requires fs == FileSystem({"f"}, {"f"}, {}, map[])
    requires x.prefix.None? && x.lang.None? && x.path == "f" && y.prefix.None? && y.lang.None? && y.path == "f"
    ensures SortedTree(Bucketed(fs, [x, y])) == map[None := map[None := [FileEntry("f", x.alias), FileEntry("f", y.alias)]]]
  {
    var ex, ey := FileEntry("f", x.alias), FileEntry("f", y.alias);
    SameFileRecords(fs, x, y);
    var t2 := map[None := map[None := [ex, ey]]];
    LexLeReflexive("f");
    assert SortByFile([ey]) == [ey];
    assert SortByFile([ex, ey]) == InsertByFile(ex, [ey]) == [ex, ey];
    assert SortedTree(t2).Keys == {None} && SortedTree(t2)[None].Keys == {None};
    assert SortedTree(t2)[None][None] == [ex, ey];
    assert SortedTree(t2)[None] == map[None := [ex, ey]];
  }

  /** The bucketing of the two example specifications. */
  lemma SameFileRecords(fs: FileSystem, x: PathSpec, y: PathSpec)
    requires fs == FileSystem({"f"}, {"f"}, {}, map[])
    requires x.prefix.None? && x.lang.None? && x.path == "f" && y.prefix.None? && y.lang.None? && y.path == "f"
    ensures Bucketed(fs, [x, y]) == map[None := map[None := [FileEntry("f", x.alias), FileEntry("f", y.alias)]]]
  {
    var ex, ey := FileEntry("f", x.alias), FileEntry("f", y.alias);
    assert Contribution(fs, x) == [ex] && Contribution(fs, y) == [ey];
    assert [x][..0] == [] && [x, y][..1] == [x];
    var t0: Tree := map[];
    var none: map<Option<string>, seq<FileEntry>> := map[];
    assert Bucketed(fs, [x]) == AddSpec(fs, t0, x);
    assert Inner(t0, None) == none && BucketOf(none, None) == [];
    assert AddSpec(fs, t0, x) == t0[None := none[None := [] + [ex]]];
    assert [] + [ex] == [ex];
    var t1 := map[None := map[None := [ex]]];
    assert Bucketed(fs, [x, y]) == AddSpec(fs, t1, y);
    assert Inner(t1, None) == map[None := [ex]] && BucketOf(map[None := [ex]], None) == [ex];
    assert AddSpec(fs, t1, y) == t1[None := map[None := [ex]][None := [ex] + [ey]]];
    var t2 := map[None := map[None := [ex, ey]]];
    assert [ex] + [ey] == [ex, ey];
    var one: map<Option<string>, seq<FileEntry>> := map[None := [ex]];
    assert one[None := [ex, ey]] == map[None := [ex, ey]];
    assert t1[None := map[None := [ex, ey]]] == t2;
    assert Bucketed(fs, [x, y]) == t2;
  }

  /** `main`: the positional tokens, the `--file` lines when that option
      is given, and the version. The tokens are converted first, then the
      file is read, its distinct tokens taken in ascending order; the
      tree decodes to the document of `Outcome`. */
  method Generate(fs: FileSystem, tokens: seq<string>, fileLines: Option<seq<string>>, version: string)
    returns (r: Result<Element, SpecError>)
    ensures r.Ok? <==> Outcome(fs, tokens, fileLines, version).Ok?
    ensures r.Err? ==> r.error == Outcome(fs, tokens, fileLines, version).error
    ensures r.Ok? ==> DecodeRcc(r.value) == Some(Outcome(fs, tokens, fileLines, version).value)
    ensures (exists i :: 0 <= i < |tokens| && ParsePathData(fs, tokens[i]).Err?) ==>
      r.Err? && exists i :: (0 <= i < |tokens| && ParsePathData(fs, tokens[i]) == Err(r.error) &&
        forall j :: 0 <= j < i ==> ParsePathData(fs, tokens[j]).Ok?)
    ensures r.Err? && (forall i :: 0 <= i < |tokens| ==> ParsePathData(fs, tokens[i]).Ok?) ==>
      fileLines.Some? && exists i :: (0 <= i < |fileLines.value| && Strip(fileLines.value[i]) != [] &&
        ParsePathData(fs, fileLines.value[i]) == Err(r.error))
  {
    if exists i :: 0 <= i < |tokens| && ParsePathData(fs, tokens[i]).Err? {
      OutcomeTokenErr(fs, tokens, fileLines, version);
    } else if Outcome(fs, tokens, fileLines, version).Err? {
      OutcomeFileErr(fs, tokens, fileLines, version);
    }
    var positional := ParseEach(tokens, Parser(fs));
    if positional.Err? {
      return Err(positional.error);
    }
    var pathList: seq<PathSpec> := [];
    if fileLines.Some? {
      var fromFile := ParseFileSorted(fs, fileLines.value);
      if fromFile.Err? {
        return Err(fromFile.error);
      }
      pathList := fromFile.value;
    }
    pathList := pathList + positional.value;
    var root := BuildTree(fs, pathList, version);
    r := Ok(root);
  }
}
