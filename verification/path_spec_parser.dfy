/** `parse_pathdata`: one command-line or file token becomes a path
    specification `{prefix?, alias?, lang?, path}`. A token without the
    substring "path" is a bare path; any other token is a `;`-separated
    list of `key:value` items. */
module PathSpecParser {
  import opened Wrappers
  import opened Text
  import opened Files

  /** Why a token is refused. */
  datatype SpecError =
    | Malformed         // a bare path with ':' or ';', or an item that is not exactly key:value
    | MissingPath       // a keyed token without a `path` item
    | NotFound          // the (lower-cased) path does not exist
    | AliasOnDirectory  // an `alias` item on a directory

  /** A parsed token. `path` is lower-cased; the other values are kept
      as written. */
  datatype PathSpec = PathSpec(prefix: Option<string>, alias: Option<string>, lang: Option<string>, path: string)

  /** The key:value split of every non-blank `;`-item, each item stripped
      first: `item.strip().split(':')` for `item` in the token's pieces
      when `item.strip()` is not empty. */
  function KeyValuePieces(items: seq<string>): seq<seq<string>> {
    if items == [] then []
    else (if Strip(items[0]) != [] then [Split(Strip(items[0]), ':')] else []) + KeyValuePieces(items[1..])
  }

  /** Each piece is the split of one non-blank item. */
  lemma {:induction false} KeyValuePiecesFromItems(items: seq<string>, k: nat)
    requires k < |KeyValuePieces(items)|
    ensures exists i :: 0 <= i < |items| && Strip(items[i]) != [] && KeyValuePieces(items)[k] == Split(Strip(items[i]), ':')
  {
    var rest := KeyValuePieces(items[1..]);
    if Strip(items[0]) != [] && k == 0 {
    } else {
      var k' := if Strip(items[0]) != [] then k - 1 else k;
      assert KeyValuePieces(items)[k] == rest[k'];
      KeyValuePiecesFromItems(items[1..], k');
      var i :| 0 <= i < |items[1..]| && Strip(items[1..][i]) != [] && rest[k'] == Split(Strip(items[1..][i]), ':');
      assert items[1..][i] == items[i + 1];
    }
  }

  /** No piece of a `;`-free item holds ':' or ';'. */
  lemma PieceIsClean(item: string, parts: seq<string>, j: nat)
    requires ';' !in item && parts == Split(Strip(item), ':') && j < |parts|
    ensures ':' !in parts[j] && ';' !in parts[j]
  {
    StripKeeps(item, ';');
    SplitJoin(Strip(item), ':');
    JoinKeeps(parts, ':', j, ';');
  }

  /** A blank item contributes nothing; any other item its split. */
  lemma {:induction false} KeyValuePiecesAppend(items: seq<string>, item: string)
    ensures KeyValuePieces(items + [item])
         == KeyValuePieces(items) + (if Strip(item) != [] then [Split(Strip(item), ':')] else [])
  {
    if items != [] {
      assert (items + [item])[1..] == items[1..] + [item];
      KeyValuePiecesAppend(items[1..], item);
    } else {
      assert [item][1..] == [];
    }
  }

  /** The value of the last pair whose key is `key`: what a Python
      dictionary built from `pairs` holds for `key`. */
  function LastValue(pairs: seq<seq<string>>, key: string): Option<string> {
    if pairs == [] then None
    else
      var last := pairs[|pairs| - 1];
      if |last| >= 2 && last[0] == key then Some(last[1])
      else LastValue(pairs[..|pairs| - 1], key)
  }

  /** A value found for `key` is the value of some pair with that key. */
  lemma {:induction false} LastValueFound(pairs: seq<seq<string>>, key: string)
    requires LastValue(pairs, key).Some?
    ensures exists k :: 0 <= k < |pairs| && |pairs[k]| >= 2 && pairs[k][0] == key && pairs[k][1] == LastValue(pairs, key).value
  {
    var last := pairs[|pairs| - 1];
    if !(|last| >= 2 && last[0] == key) {
      var init := pairs[..|pairs| - 1];
      LastValueFound(init, key);
      var k :| 0 <= k < |init| && |init[k]| >= 2 && init[k][0] == key && init[k][1] == LastValue(init, key).value;
      assert pairs[k] == init[k];
    }
  }

  /** `dict(pairs)`: every element must be exactly a key and a value,
      and a later pair with the same key replaces an earlier one. */
  function DictOf(pairs: seq<seq<string>>): (r: Result<map<string, string>, SpecError>)
    ensures r.Ok? <==> forall k :: 0 <= k < |pairs| ==> |pairs[k]| == 2
    ensures r.Err? ==> r.error == Malformed
    ensures r.Ok? ==> forall key :: Get(r.value, key) == LastValue(pairs, key)
  {
    if pairs == [] then Ok(map[])
    else
      var last := pairs[|pairs| - 1];
      match DictOf(pairs[..|pairs| - 1])
      case Err(e) => Err(e)
      case Ok(d) =>
        if |last| != 2 then Err(Malformed)
        else Ok(d[last[0] := last[1]])
  }

  /** `d.get(key)`. */
  function Get(d: map<string, string>, key: string): Option<string> {
    if key in d then Some(d[key]) else None
  }

  /** Lower-casing a path keeps it free of the reserved characters and
      makes it a fixed point of lower-casing. */
  lemma LowerPath(p: string)
    requires ':' !in p && ';' !in p
    ensures ':' !in Lower(p) && ';' !in Lower(p) && Lower(Lower(p)) == Lower(p)
  {
    LowerKeepsPunctuation(p, ':');
    LowerKeepsPunctuation(p, ';');
    LowerIdempotent(p);
  }

  /** The bare branch, for a stripped token `t` without "path". */
  function ParseBare(fs: FileSystem, t: string): (r: Result<PathSpec, SpecError>)
    ensures r.Ok? ==> fs.Exists(r.value.path) && Lower(r.value.path) == r.value.path
    ensures r.Ok? ==> ':' !in r.value.path && ';' !in r.value.path
    ensures r.Ok? ==> r.value.prefix.None? && r.value.alias.None? && r.value.lang.None?
    ensures r.Err? ==> r.error == Malformed || r.error == NotFound
  {
    if ':' in t || ';' in t then Err(Malformed)
    else
      var path := Lower(t);
      LowerPath(t);
      if !fs.Exists(path) then Err(NotFound)
      else Ok(PathSpec(None, None, None, path))
  }

  /** The keyed branch, for a stripped token `t` that contains "path". */
  function ParseKeyed(fs: FileSystem, t: string): (r: Result<PathSpec, SpecError>)
    ensures r.Ok? ==> fs.Exists(r.value.path) && Lower(r.value.path) == r.value.path
    ensures r.Ok? ==> ':' !in r.value.path && ';' !in r.value.path
    ensures r.Ok? && r.value.alias.Some? ==> !fs.IsDir(r.value.path)
  {
    var pieces := KeyValuePieces(Split(t, ';'));
    match DictOf(pieces)
    case Err(e) => Err(e)
    case Ok(d) =>
      if "path" !in d then Err(MissingPath)
      else
        var raw := d["path"];
        var path := Lower(Strip(raw));
        assert Get(d, "path") == LastValue(pieces, "path");
        assert ':' !in Strip(raw) && ';' !in Strip(raw) by {
          LastValueFound(pieces, "path");
          var k :| 0 <= k < |pieces| && |pieces[k]| >= 2 && pieces[k][0] == "path" && pieces[k][1] == raw;
          var items := Split(t, ';');
          KeyValuePiecesFromItems(items, k);
          var i :| 0 <= i < |items| && Strip(items[i]) != [] && pieces[k] == Split(Strip(items[i]), ':');
          PieceIsClean(items[i], pieces[k], 1);
          StripKeeps(raw, ':');
          StripKeeps(raw, ';');
        }
        LowerPath(Strip(raw));
        if !fs.Exists(path) then Err(NotFound)
        else if fs.IsDir(path) && "alias" in d then Err(AliasOnDirectory)
        else Ok(PathSpec(Get(d, "prefix"), Get(d, "alias"), Get(d, "lang"), path))
  }

  /** The keyed branch reads the dictionary of the token's pieces. */
  lemma KeyedReadsDictionary(fs: FileSystem, t: string, d: map<string, string>)
    requires DictOf(KeyValuePieces(Split(t, ';'))) == Ok(d) && "path" in d
    ensures var path := Lower(Strip(d["path"]));
      ParseKeyed(fs, t)
        == if !fs.Exists(path) then Err(NotFound)
           else if fs.IsDir(path) && "alias" in d then Err(AliasOnDirectory)
           else Ok(PathSpec(Get(d, "prefix"), Get(d, "alias"), Get(d, "lang"), path))
  {
  }

  /** A keyed token whose dictionary has no `path` key is refused. */
  lemma KeyedWithoutPathKey(fs: FileSystem, t: string, d: map<string, string>)
    requires DictOf(KeyValuePieces(Split(t, ';'))) == Ok(d) && "path" !in d
    ensures ParseKeyed(fs, t) == Err(MissingPath)
  {
  }

  /** A token that contains "path" once stripped takes the keyed branch. */
  lemma KeyedParse(fs: FileSystem, token: string)
    requires Contains(Strip(token), "path")
    ensures ParsePathData(fs, token) == ParseKeyed(fs, Strip(token))
  {
  }

  /** `parse_pathdata(token)`: the token is stripped, then read as a bare
      path unless it contains "path". What it accepts always names an
      existing, lower-case path free of ':' and ';', and never puts an
      alias on a directory. */
  function ParsePathData(fs: FileSystem, token: string): (r: Result<PathSpec, SpecError>)
    ensures r.Ok? ==> fs.Exists(r.value.path) && Lower(r.value.path) == r.value.path
    ensures r.Ok? ==> ':' !in r.value.path && ';' !in r.value.path
    ensures r.Ok? && r.value.alias.Some? ==> !fs.IsDir(r.value.path)
  {
    var t := Strip(token);
    if !Contains(t, "path") then ParseBare(fs, t) else ParseKeyed(fs, t)
  }

  /** Every non-blank item is split into one piece. */
  lemma {:induction false} KeyValuePiecesHasItem(items: seq<string>, i: nat)
    requires i < |items| && Strip(items[i]) != []
    ensures Split(Strip(items[i]), ':') in KeyValuePieces(items)
  {
    if i > 0 {
      KeyValuePiecesHasItem(items[1..], i - 1);
      assert items[1..][i - 1] == items[i];
    }
  }

  /** The bare branch in full: reserved characters are refused, and
      otherwise the lower-cased token is the path when it exists. */
  lemma BareOutcome(fs: FileSystem, token: string)
    requires !Contains(Strip(token), "path")
    ensures var t := Strip(token);
      ParsePathData(fs, token)
        == if ':' in t || ';' in t then Err(Malformed)
           else if fs.Exists(Lower(t)) then Ok(PathSpec(None, None, None, Lower(t)))
           else Err(NotFound)
  {
  }

  /** The keyed branch read off the pieces directly, without the
      dictionary: any piece that is not exactly key:value is refused; the
      last `path` value, stripped and lower-cased, must exist and must not
      be a directory when an alias is given; prefix, alias and lang are the
      last values given for them, unchanged. */
  function KeyedReference(fs: FileSystem, pieces: seq<seq<string>>): Result<PathSpec, SpecError> {
    if exists k :: 0 <= k < |pieces| && |pieces[k]| != 2 then Err(Malformed)
    else if LastValue(pieces, "path").None? then Err(MissingPath)
    else
      var path := Lower(Strip(LastValue(pieces, "path").value));
      if !fs.Exists(path) then Err(NotFound)
      else if fs.IsDir(path) && LastValue(pieces, "alias").Some? then Err(AliasOnDirectory)
      else Ok(PathSpec(LastValue(pieces, "prefix"), LastValue(pieces, "alias"), LastValue(pieces, "lang"), path))
  }

  /** Reading a dictionary agrees with reading the pieces it came from. */
  lemma DictionaryMatchesReference(fs: FileSystem, t: string, pieces: seq<seq<string>>)
    requires pieces == KeyValuePieces(Split(t, ';'))
    ensures ParseKeyed(fs, t) == KeyedReference(fs, pieces)
  {
    match DictOf(pieces)
    case Err(_) =>
      assert ParseKeyed(fs, t) == Err(Malformed);
    case Ok(d) =>
      PairsLookup(pieces, d);
      if "path" in d {
        KeyedReadsDictionary(fs, t, d);
      } else {
        KeyedWithoutPathKey(fs, t, d);
      }
  }

  /** The four keys `parse_pathdata` reads, looked up in `dict(pieces)`. */
  lemma PairsLookup(pieces: seq<seq<string>>, d: map<string, string>)
    requires DictOf(pieces) == Ok(d)
    ensures forall k :: 0 <= k < |pieces| ==> |pieces[k]| == 2
    ensures Get(d, "path") == LastValue(pieces, "path") && Get(d, "alias") == LastValue(pieces, "alias")
    ensures Get(d, "prefix") == LastValue(pieces, "prefix") && Get(d, "lang") == LastValue(pieces, "lang")
  {
  }

  /** The keyed branch of `parse_pathdata` in full. */
  lemma KeyedOutcome(fs: FileSystem, token: string)
    requires Contains(Strip(token), "path")
    ensures ParsePathData(fs, token) == KeyedReference(fs, KeyValuePieces(Split(Strip(token), ';')))
  {
    KeyedParse(fs, token);
    DictionaryMatchesReference(fs, Strip(token), KeyValuePieces(Split(Strip(token), ';')));
  }

  /** A keyed token fails as malformed as soon as one of its non-blank
      `;`-items does not split into exactly a key and a value. */
  lemma KeyedItemNotPair(fs: FileSystem, token: string, i: nat)
    requires Contains(Strip(token), "path")
    requires var items := Split(Strip(token), ';');
      i < |items| && Strip(items[i]) != [] && |Split(Strip(items[i]), ':')| != 2
    ensures ParsePathData(fs, token) == Err(Malformed)
  {
    var items := Split(Strip(token), ';');
    KeyValuePiecesHasItem(items, i);
    KeyedOutcome(fs, token);
  }

  /** Items that are all key:value pairs without the key `path` give
      such pieces. */
  lemma PiecesWithoutPath(items: seq<string>, pieces: seq<seq<string>>)
    requires pieces == KeyValuePieces(items)
    requires forall i :: 0 <= i < |items| && Strip(items[i]) != [] ==>
      |Split(Strip(items[i]), ':')| == 2 && Split(Strip(items[i]), ':')[0] != "path"
    ensures forall k :: 0 <= k < |pieces| ==> |pieces[k]| == 2 && pieces[k][0] != "path"
  {
    forall k | 0 <= k < |pieces| ensures |pieces[k]| == 2 && pieces[k][0] != "path" {
      KeyValuePiecesFromItems(items, k);
    }
  }

  /** Without a `path` piece, there is no last `path` value. */
  lemma NoPathPiece(fs: FileSystem, pieces: seq<seq<string>>)
    requires forall k :: 0 <= k < |pieces| ==> |pieces[k]| == 2 && pieces[k][0] != "path"
    ensures LastValue(pieces, "path").None?
    ensures KeyedReference(fs, pieces) == Err(MissingPath)
  {
    if LastValue(pieces, "path").Some? {
      LastValueFound(pieces, "path");
    }
  }

  /** A keyed token whose items are all key:value pairs, none with the
      key `path`, fails for the missing path. */
  lemma KeyedWithoutPathItem(fs: FileSystem, token: string, items: seq<string>)
    requires Contains(Strip(token), "path") && items == Split(Strip(token), ';')
    requires forall i :: 0 <= i < |items| && Strip(items[i]) != [] ==>
      |Split(Strip(items[i]), ':')| == 2 && Split(Strip(items[i]), ':')[0] != "path"
    ensures ParsePathData(fs, token) == Err(MissingPath)
  {
    var pieces := KeyValuePieces(items);
    PiecesWithoutPath(items, pieces);
    NoPathPiece(fs, pieces);
    KeyedOutcome(fs, token);
  }
}
