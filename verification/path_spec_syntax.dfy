/** The token grammar read the other way: a path specification written
    as `[prefix:PREFIX;][alias:ALIAS;][lang:LANG;]path:PATH`, and what
    `parse_pathdata` makes of such tokens. */
module PathSpecSyntax {
  import opened Wrappers
  import opened Text
  import opened Files
  import opened PathSpecParser

  /** A key as the grammar writes it: no reserved character, and not
      starting with whitespace (which `strip()` would remove). */
  predicate CleanKey(k: string) {
    k != [] && !IsSpace(k[0]) && ':' !in k && ';' !in k
  }

  /** A value that survives `strip()` and both splits unchanged. */
  predicate CleanValue(v: string) {
    ':' !in v && ';' !in v && (v == [] || !IsSpace(v[|v| - 1]))
  }

  /** The `key:value` item. */
  function Item(kv: (string, string)): string {
    kv.0 + [':'] + kv.1
  }

  function Items(kvs: seq<(string, string)>): (r: seq<string>)
    ensures |r| == |kvs| && forall i :: 0 <= i < |kvs| ==> r[i] == Item(kvs[i])
  {
    if kvs == [] then [] else [Item(kvs[0])] + Items(kvs[1..])
  }

  function Pairs(kvs: seq<(string, string)>): (r: seq<seq<string>>)
    ensures |r| == |kvs| && forall i :: 0 <= i < |kvs| ==> r[i] == [kvs[i].0, kvs[i].1]
  {
    if kvs == [] then [] else [[kvs[0].0, kvs[0].1]] + Pairs(kvs[1..])
  }

  /** A clean item splits into exactly its key and its value. */
  lemma ItemPieces(kv: (string, string))
    requires CleanKey(kv.0) && CleanValue(kv.1)
    ensures Strip(Item(kv)) == Item(kv)
    ensures Split(Strip(Item(kv)), ':') == [kv.0, kv.1]
  {
    StripTrimmed(Item(kv));
    SplitAfterSeparatorFree(kv.0, ':', kv.1);
    SplitNoSeparator(kv.1, ':');
  }

  lemma {:induction false} PiecesOfItems(kvs: seq<(string, string)>)
    requires forall i :: 0 <= i < |kvs| ==> CleanKey(kvs[i].0) && CleanValue(kvs[i].1)
    ensures KeyValuePieces(Items(kvs)) == Pairs(kvs)
  {
    if kvs != [] {
      ItemPieces(kvs[0]);
      assert Items(kvs)[1..] == Items(kvs[1..]);
      PiecesOfItems(kvs[1..]);
    }
  }

  /** Joining clean items gives a string that `strip()` keeps. */
  lemma {:induction false} JoinItemsTrimmed(kvs: seq<(string, string)>)
    requires |kvs| >= 1
    requires forall i :: 0 <= i < |kvs| ==> CleanKey(kvs[i].0) && CleanValue(kvs[i].1)
    ensures Trimmed(Join(Items(kvs), ';'))
    ensures Join(Items(kvs), ';') != []
  {
    if |kvs| > 1 {
      JoinItemsTrimmed(kvs[1..]);
      assert Items(kvs)[1..] == Items(kvs[1..]);
    }
  }

  lemma {:induction false} PairsAppend(a: seq<(string, string)>, b: seq<(string, string)>)
    ensures Pairs(a + b) == Pairs(a) + Pairs(b)
  {
  }

  /** The item for an optional field: none when the field is absent. */
  function OptField(key: string, v: Option<string>): seq<(string, string)> {
    if v.Some? then [(key, v.value)] else []
  }

  /** A dictionary built from `pairs` and then an optional `key` item
      holds that item's value for `key` when there is one, and what
      it held before otherwise; other keys are unaffected. */
  lemma LastValueOpt(pairs: seq<seq<string>>, key: string, v: Option<string>, probe: string)
    ensures LastValue(pairs + Pairs(OptField(key, v)), probe)
         == if v.Some? && probe == key then v else LastValue(pairs, probe)
  {
    if v.Some? {
      assert (pairs + Pairs(OptField(key, v)))[..|pairs|] == pairs;
    } else {
      assert pairs + Pairs(OptField(key, v)) == pairs;
    }
  }

  /** The items a specification is written with, in the order of the
      grammar comment: prefix, alias, lang, then path. */
  function Fields(spec: PathSpec): seq<(string, string)> {
    OptField("prefix", spec.prefix) + OptField("alias", spec.alias) + OptField("lang", spec.lang)
    + [("path", spec.path)]
  }

  /** `[prefix:PREFIX;][alias:ALIAS;][lang:LANG;]path:PATH`. */
  function Render(spec: PathSpec): string {
    Join(Items(Fields(spec)), ';')
  }

  /** What a specification must satisfy to be written as a token and
      read back unchanged: clean values, a stripped lower-case path
      that exists, and no alias on a directory. */
  predicate Renderable(fs: FileSystem, spec: PathSpec) {
    && (spec.prefix.Some? ==> CleanValue(spec.prefix.value))
    && (spec.alias.Some? ==> CleanValue(spec.alias.value))
    && (spec.lang.Some? ==> CleanValue(spec.lang.value))
    && CleanValue(spec.path) && Trimmed(spec.path) && Lower(spec.path) == spec.path
    && fs.Exists(spec.path)
    && (spec.alias.Some? ==> !fs.IsDir(spec.path))
  }

  lemma OptFieldClean(key: string, v: Option<string>)
    requires CleanKey(key) && (v.Some? ==> CleanValue(v.value))
    ensures forall i :: 0 <= i < |OptField(key, v)| ==> CleanKey(OptField(key, v)[i].0) && CleanValue(OptField(key, v)[i].1)
  {
  }

  /** A renderable specification is written with clean items only. */
  lemma FieldsClean(spec: PathSpec)
    requires (spec.prefix.Some? ==> CleanValue(spec.prefix.value))
    requires (spec.alias.Some? ==> CleanValue(spec.alias.value))
    requires (spec.lang.Some? ==> CleanValue(spec.lang.value))
    requires CleanValue(spec.path)
    ensures |Fields(spec)| >= 1 && Fields(spec)[|Fields(spec)| - 1].0 == "path"
    ensures forall i :: 0 <= i < |Fields(spec)| ==> CleanKey(Fields(spec)[i].0) && CleanValue(Fields(spec)[i].1)
  {
    assert CleanKey("prefix") && CleanKey("alias") && CleanKey("lang") && CleanKey("path");
    OptFieldClean("prefix", spec.prefix);
    OptFieldClean("alias", spec.alias);
    OptFieldClean("lang", spec.lang);
    OptFieldClean("path", Some(spec.path));
    var f1 := OptField("prefix", spec.prefix);
    var f2 := OptField("alias", spec.alias);
    var f3 := OptField("lang", spec.lang);
    var f4 := OptField("path", Some(spec.path));
    assert Fields(spec) == f1 + f2 + f3 + f4;
  }

  /** Every field of a specification comes back from the dictionary. */
  lemma FieldsLookup(spec: PathSpec)
    ensures LastValue(Pairs(Fields(spec)), "path") == Some(spec.path)
    ensures LastValue(Pairs(Fields(spec)), "prefix") == spec.prefix
    ensures LastValue(Pairs(Fields(spec)), "alias") == spec.alias
    ensures LastValue(Pairs(Fields(spec)), "lang") == spec.lang
  {
    FieldLookup(spec, "path");
    FieldLookup(spec, "prefix");
    FieldLookup(spec, "alias");
    FieldLookup(spec, "lang");
  }

  lemma FieldLookup(spec: PathSpec, probe: string)
    ensures LastValue(Pairs(Fields(spec)), probe)
         == if probe == "path" then Some(spec.path)
            else if probe == "prefix" then spec.prefix
            else if probe == "alias" then spec.alias
            else if probe == "lang" then spec.lang
            else None
  {
    var f1 := OptField("prefix", spec.prefix);
    var f2 := OptField("alias", spec.alias);
    var f3 := OptField("lang", spec.lang);
    var f4 := OptField("path", Some(spec.path));
    assert Fields(spec) == f1 + f2 + f3 + f4;
    PairsAppend(f1, f2);
    PairsAppend(f1 + f2, f3);
    PairsAppend(f1 + f2 + f3, f4);
    LastValueOpt([], "prefix", spec.prefix, probe);
    assert [] + Pairs(f1) == Pairs(f1);
    LastValueOpt(Pairs(f1), "alias", spec.alias, probe);
    LastValueOpt(Pairs(f1 + f2), "lang", spec.lang, probe);
    LastValueOpt(Pairs(f1 + f2 + f3), "path", Some(spec.path), probe);
  }

  /** A token made of clean items is stripped and splits on ';' back
      into those items. */
  lemma ItemsTokenSplits(kvs: seq<(string, string)>)
    requires |kvs| >= 1
    requires forall i :: 0 <= i < |kvs| ==> CleanKey(kvs[i].0) && CleanValue(kvs[i].1)
    ensures Strip(Join(Items(kvs), ';')) == Join(Items(kvs), ';')
    ensures Split(Join(Items(kvs), ';'), ';') == Items(kvs)
  {
    JoinItemsTrimmed(kvs);
    StripTrimmed(Join(Items(kvs), ';'));
    SplitUnique(Join(Items(kvs), ';'), ';', Items(kvs));
  }

  /** A stripped token that passes the substring test, whose items are
      all key:value pairs and whose `path` value is clean, is read as
      the last value given for each key. */
  lemma KeyedTokenRead(fs: FileSystem, t: string, pairs: seq<seq<string>>, path: string)
    requires Strip(t) == t && Contains(t, "path") && KeyValuePieces(Split(t, ';')) == pairs
    requires forall i :: 0 <= i < |pairs| ==> |pairs[i]| == 2
    requires LastValue(pairs, "path") == Some(path) && Trimmed(path) && Lower(path) == path
    requires fs.Exists(path) && (LastValue(pairs, "alias").Some? ==> !fs.IsDir(path))
    ensures ParsePathData(fs, t)
         == Ok(PathSpec(LastValue(pairs, "prefix"), LastValue(pairs, "alias"), LastValue(pairs, "lang"), path))
  {
    KeyedOutcome(fs, t);
    StripTrimmed(path);
  }

  /** The token written from items ending in a `path` item passes the
      substring test. */
  lemma ItemsTokenContains(kvs: seq<(string, string)>)
    requires |kvs| >= 1 && kvs[|kvs| - 1].0 == "path"
    ensures Contains(Join(Items(kvs), ';'), "path")
  {
    var kv := kvs[|kvs| - 1];
    assert kv.0 <= Item(kv) by {
      assert Item(kv) == kv.0 + ([':'] + kv.1);
    }
    JoinContainsPrefixOfLast(Items(kvs), ';', kv.0);
  }

  /** The token written from clean items splits back into those items'
      pairs. */
  lemma ItemsTokenPieces(kvs: seq<(string, string)>)
    requires |kvs| >= 1
    requires forall i :: 0 <= i < |kvs| ==> CleanKey(kvs[i].0) && CleanValue(kvs[i].1)
    ensures KeyValuePieces(Split(Join(Items(kvs), ';'), ';')) == Pairs(kvs)
  {
    ItemsTokenSplits(kvs);
    PiecesOfItems(kvs);
  }

  lemma PairsArePairs(kvs: seq<(string, string)>)
    ensures forall i :: 0 <= i < |Pairs(kvs)| ==> |Pairs(kvs)[i]| == 2
  {
  }

  /** A stripped keyed token whose pairs give the fields of `spec` as
      their last values is read as `spec`. */
  lemma ReadBack(fs: FileSystem, spec: PathSpec, t: string, pairs: seq<seq<string>>)
    requires Strip(t) == t && Contains(t, "path") && KeyValuePieces(Split(t, ';')) == pairs
    requires forall i :: 0 <= i < |pairs| ==> |pairs[i]| == 2
    requires LastValue(pairs, "path") == Some(spec.path) && LastValue(pairs, "prefix") == spec.prefix
    requires LastValue(pairs, "alias") == spec.alias && LastValue(pairs, "lang") == spec.lang
    requires Trimmed(spec.path) && Lower(spec.path) == spec.path
    requires fs.Exists(spec.path) && (spec.alias.Some? ==> !fs.IsDir(spec.path))
    ensures ParsePathData(fs, t) == Ok(spec)
  {
    KeyedTokenRead(fs, t, pairs, spec.path);
  }

  /** A token written from clean items ending in `path` is read as the
      last value of each key among those items. */
  lemma ItemsRead(fs: FileSystem, kvs: seq<(string, string)>, spec: PathSpec)
    requires |kvs| >= 1 && kvs[|kvs| - 1].0 == "path"
    requires forall i :: 0 <= i < |kvs| ==> CleanKey(kvs[i].0) && CleanValue(kvs[i].1)
    requires LastValue(Pairs(kvs), "path") == Some(spec.path) && LastValue(Pairs(kvs), "prefix") == spec.prefix
    requires LastValue(Pairs(kvs), "alias") == spec.alias && LastValue(Pairs(kvs), "lang") == spec.lang
    requires Trimmed(spec.path) && Lower(spec.path) == spec.path
    requires fs.Exists(spec.path) && (spec.alias.Some? ==> !fs.IsDir(spec.path))
    ensures ParsePathData(fs, Join(Items(kvs), ';')) == Ok(spec)
  {
    var t := Join(Items(kvs), ';');
    PairsArePairs(kvs);
    assert Strip(t) == t by { ItemsTokenSplits(kvs); }
    assert Contains(t, "path") by { ItemsTokenContains(kvs); }
    assert KeyValuePieces(Split(t, ';')) == Pairs(kvs) by { ItemsTokenPieces(kvs); }
    ReadBack(fs, spec, Join(Items(kvs), ';'), Pairs(kvs));
  }

  /** Round trip: writing a specification in the keyed grammar and
      parsing the token gives the specification back. */
  lemma RenderRoundTrip(fs: FileSystem, spec: PathSpec)
    requires Renderable(fs, spec)
    ensures ParsePathData(fs, Render(spec)) == Ok(spec)
  {
    FieldsClean(spec);
    FieldsLookup(spec);
    ItemsRead(fs, Fields(spec), spec);
  }

  /** One more key:value pair fails exactly when the others fail, and
      otherwise sets that key. */
  lemma DictOfAppend(pairs: seq<seq<string>>, k: string, v: string)
    ensures DictOf(pairs + [[k, v]]).Ok? <==> DictOf(pairs).Ok?
    ensures DictOf(pairs).Ok? ==> DictOf(pairs + [[k, v]]).value == DictOf(pairs).value[k := v]
  {
    assert (pairs + [[k, v]])[..|pairs|] == pairs;
  }

  /** Appending a clean item to a stripped keyed token keeps it
      stripped and keyed, and adds one pair at the end. */
  lemma AppendItemPieces(token: string, key: string, value: string)
    requires Trimmed(token) && Contains(token, "path")
    requires CleanKey(key) && CleanValue(value)
    ensures var longer := token + [';'] + Item((key, value));
      Strip(longer) == longer && Contains(longer, "path")
      && KeyValuePieces(Split(longer, ';')) == KeyValuePieces(Split(token, ';')) + [[key, value]]
  {
    var item := Item((key, value));
    var longer := token + [';'] + item;
    ItemPieces((key, value));
    StripTrimmed(token);
    assert Trimmed(longer);
    StripTrimmed(longer);
    ContainsExtend(token, [';'] + item, "path");
    assert token + ([';'] + item) == longer;
    SplitAppend(token, ';', item);
    KeyValuePiecesAppend(Split(token, ';'), item);
  }

  /** The keyed branch does not look at a trailing pair whose key is
      none of the four it reads. */
  lemma KeyedIgnoresPair(fs: FileSystem, t: string, t': string, key: string, value: string)
    requires KeyValuePieces(Split(t', ';')) == KeyValuePieces(Split(t, ';')) + [[key, value]]
    requires key != "prefix" && key != "alias" && key != "lang" && key != "path"
    ensures ParseKeyed(fs, t') == ParseKeyed(fs, t)
  {
    var pieces := KeyValuePieces(Split(t, ';'));
    DictOfAppend(pieces, key, value);
    if DictOf(pieces).Ok? {
      var d := DictOf(pieces).value;
      var d' := d[key := value];
      assert Get(d', "prefix") == Get(d, "prefix");
      assert Get(d', "alias") == Get(d, "alias");
      assert Get(d', "lang") == Get(d, "lang");
      if "path" in d {
        KeyedReadsDictionary(fs, t, d);
        KeyedReadsDictionary(fs, t', d');
      }
    }
  }

  /** An item whose key is none of prefix, alias, lang and path changes
      nothing: the parser reads only those four keys. */
  lemma UnknownKeyIgnored(fs: FileSystem, token: string, key: string, value: string)
    requires Trimmed(token) && Contains(token, "path")
    requires CleanKey(key) && CleanValue(value)
    requires key != "prefix" && key != "alias" && key != "lang" && key != "path"
    ensures ParsePathData(fs, token + [';'] + Item((key, value))) == ParsePathData(fs, token)
  {
    var longer := token + [';'] + Item((key, value));
    AppendItemPieces(token, key, value);
    StripTrimmed(token);
    KeyedParse(fs, token);
    KeyedParse(fs, longer);
    KeyedIgnoresPair(fs, token, longer, key, value);
  }

  /** A keyed token whose only item holds no ':' is malformed. */
  lemma SingleItemWithoutColon(fs: FileSystem, t: string)
    requires Trimmed(t) && t != [] && ';' !in t && ':' !in t && Contains(t, "path")
    ensures ParsePathData(fs, t) == Err(Malformed)
  {
    StripTrimmed(t);
    KeyedParse(fs, t);
    SplitNoSeparator(t, ';');
    SplitNoSeparator(t, ':');
    assert KeyValuePieces([t]) == [[t]];
  }

  /** A keyed token whose only item is a key other than `path`. */
  lemma SingleItemWithoutPathKey(fs: FileSystem, key: string, value: string)
    requires CleanKey(key) && CleanValue(value) && key != "path"
    requires Contains(Item((key, value)), "path")
    ensures ParsePathData(fs, Item((key, value))) == Err(MissingPath)
  {
    var t := Item((key, value));
    ItemPieces((key, value));
    KeyedParse(fs, t);
    SingleItemDict(key, value);
    KeyedWithoutPathKey(fs, t, map[key := value]);
  }

  /** The dictionary of a one-item token. */
  lemma SingleItemDict(key: string, value: string)
    requires CleanKey(key) && CleanValue(value)
    ensures DictOf(KeyValuePieces(Split(Item((key, value)), ';'))) == Ok(map[key := value])
  {
    var t := Item((key, value));
    ItemPieces((key, value));
    SplitNoSeparator(t, ';');
    assert KeyValuePieces([t]) == [[key, value]];
    DictOfAppend([], key, value);
    assert [] + [[key, value]] == [[key, value]];
  }

  /** The substring test is literal: a bare path that happens to contain
      "path" is read as a keyed list, and its single item is not a
      key:value pair. */
  lemma BarePathContainingPathIsMalformed(fs: FileSystem)
    ensures ParsePathData(fs, "mypath/x") == Err(Malformed)
  {
    var t := "mypath/x";
    assert SliceAt(t, "path", 2);
    ContainsAt(t, "path", 2);
    SingleItemWithoutColon(fs, t);
  }

  /** `prefix:path` passes the substring test but has no `path` key. */
  lemma PathAsValueIsNotPathKey(fs: FileSystem)
    ensures ParsePathData(fs, "prefix:path") == Err(MissingPath)
  {
    var t := Item(("prefix", "path"));
    assert t == "prefix:path";
    assert SliceAt(t, "path", 7);
    ContainsAt(t, "path", 7);
    SingleItemWithoutPathKey(fs, "prefix", "path");
  }
}
