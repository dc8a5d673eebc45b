/** `parse_file`: the lines of a `--file` list are stripped, blank lines
    dropped and duplicates merged into a set, then every distinct token is
    parsed; the first token that fails aborts the whole call. Python's set
    iteration order is not specified, so the model picks tokens in an
    arbitrary order and states its result up to that order. */
module BatchReader {
  import opened Wrappers
  import opened Text
  import opened Files
  import opened PathSpecParser

  /** The distinct non-blank stripped lines: the set comprehension over
      the file. */
  function DistinctTokens(lines: seq<string>): set<string> {
    set i | 0 <= i < |lines| && Strip(lines[i]) != [] :: Strip(lines[i])
  }

  /** `order` lists every element of `tokens` exactly once. */
  ghost predicate Enumerates(order: seq<string>, tokens: set<string>) {
    (forall t :: t in order <==> t in tokens) &&
    (forall i, j :: 0 <= i < j < |order| ==> order[i] != order[j])
  }

  /** A line counts through its stripped text only. */
  lemma ParseStripped(fs: FileSystem, token: string)
    ensures ParsePathData(fs, Strip(token)) == ParsePathData(fs, token)
  {
    StripIdempotent(token);
  }

  /** Each distinct token is stripped and non-blank. */
  lemma TokensTrimmed(lines: seq<string>, t: string)
    requires t in DistinctTokens(lines)
    ensures t != [] && Strip(t) == t
  {
    var i :| 0 <= i < |lines| && Strip(lines[i]) != [] && Strip(lines[i]) == t;
    StripIdempotent(lines[i]);
  }

  /** One more line adds its stripped text, unless it is blank. */
  lemma DistinctTokensAppend(lines: seq<string>, line: string)
    ensures DistinctTokens(lines + [line])
         == DistinctTokens(lines) + (if Strip(line) != [] then {Strip(line)} else {})
  {
    var all := lines + [line];
    forall t | t in DistinctTokens(all)
      ensures t in DistinctTokens(lines) + (if Strip(line) != [] then {Strip(line)} else {})
    {
      var i :| 0 <= i < |all| && Strip(all[i]) != [] && Strip(all[i]) == t;
      if i < |lines| {
        assert all[i] == lines[i];
      }
    }
    forall t | t in DistinctTokens(lines) ensures t in DistinctTokens(all) {
      var i :| 0 <= i < |lines| && Strip(lines[i]) != [] && Strip(lines[i]) == t;
      assert all[i] == lines[i];
    }
    if Strip(line) != [] {
      assert all[|lines|] == line;
    }
  }

  /** A blank line, or a repeat of a line already read (up to
      surrounding whitespace), changes nothing. */
  lemma RepeatOrBlankIgnored(lines: seq<string>, line: string)
    requires Strip(line) == [] || exists i :: 0 <= i < |lines| && Strip(lines[i]) == Strip(line)
    ensures DistinctTokens(lines + [line]) == DistinctTokens(lines)
  {
    DistinctTokensAppend(lines, line);
  }

  /** The tokens do not depend on the order of the lines. */
  lemma {:induction false} DistinctTokensConcat(a: seq<string>, b: seq<string>)
    ensures DistinctTokens(a + b) == DistinctTokens(a) + DistinctTokens(b)
    decreases |b|
  {
    if b == [] {
      assert a + b == a;
      assert DistinctTokens(b) == {};
    } else {
      var init := b[..|b| - 1];
      var last := b[|b| - 1];
      assert b == init + [last];
      assert a + b == (a + init) + [last];
      DistinctTokensConcat(a, init);
      DistinctTokensAppend(a + init, last);
      DistinctTokensAppend(init, last);
    }
  }

  /** A list without repeats is exactly as long as the set it lists. */
  lemma {:induction false} EnumerationSize(order: seq<string>, tokens: set<string>)
    requires Enumerates(order, tokens)
    ensures |order| == |tokens|
    decreases |order|
  {
    if order != [] {
      var last := order[|order| - 1];
      var init := order[..|order| - 1];
      assert order == init + [last];
      forall t ensures t in init <==> t in tokens - {last} {
        if t in init {
          var i :| 0 <= i < |init| && init[i] == t;
          assert order[i] == t;
        }
        if t in tokens - {last} {
          assert t in order;
          var i :| 0 <= i < |order| && order[i] == t;
          assert i < |init|;
          assert init[i] == t;
        }
      }
      EnumerationSize(init, tokens - {last});
    } else {
      assert forall t :: t !in tokens;
      assert tokens == {};
    }
  }

  /** The set comprehension of `parse_file`: one pass over the lines. */
  method CollectTokens(lines: seq<string>) returns (pathSet: set<string>)
    ensures pathSet == DistinctTokens(lines)
  {
    pathSet := {};
    var i := 0;
    while i < |lines|
      invariant 0 <= i <= |lines|
      invariant pathSet == DistinctTokens(lines[..i])
    {
      var stripped := Strip(lines[i]);
      assert lines[..i + 1] == lines[..i] + [lines[i]];
      DistinctTokensAppend(lines[..i], lines[i]);
      if stripped != [] {
        pathSet := pathSet + {stripped};
      }
      i := i + 1;
    }
    assert lines[..i] == lines;
  }

  /** The `for` loop of `parse_file` over a set of stripped tokens: each
      token is given to `parse` (there, `parse_pathdata`) once, in an
      unspecified order, and the first failure is returned. */
  method ParseTokens(tokens: set<string>, parse: string -> Result<PathSpec, SpecError>) returns (r: Result<seq<PathSpec>, SpecError>, ghost order: seq<string>)
    requires forall t :: t in tokens ==> Strip(t) == t && t != []
    ensures r.Ok? <==> forall t :: t in tokens ==> parse(t).Ok?
    ensures r.Err? ==> exists t :: t in tokens && parse(t) == Err(r.error)
    ensures r.Ok? ==> Enumerates(order, tokens) && |r.value| == |order|
    ensures r.Ok? ==> forall j :: 0 <= j < |order| ==> parse(order[j]) == Ok(r.value[j])
  {
    var ret: seq<PathSpec> := [];
    var rest := tokens;
    order := [];
    while rest != {}
      invariant rest <= tokens
      invariant forall t :: t in order <==> t in tokens - rest
      invariant forall a, b :: 0 <= a < b < |order| ==> order[a] != order[b]
      invariant |ret| == |order|
      invariant forall j :: 0 <= j < |order| ==> parse(order[j]) == Ok(ret[j])
      invariant forall t :: t in tokens - rest ==> parse(t).Ok?
      decreases rest
    {
      var pathdata :| pathdata in rest;
      assert pathdata !in order;
      var token := Strip(pathdata);
      match parse(token)
      case Err(e) =>
        return Err(e), order;
      case Ok(spec) =>
        ret := ret + [spec];
        order := order + [pathdata];
        rest := rest - {pathdata};
    }
    r := Ok(ret);
  }

  /** `parse_file(lines)`. On success the specs are those of the distinct
      tokens, one per token, in the (unspecified) order `order`; the call
      fails exactly when some non-blank line fails to parse, and then with
      that line's error. */
  method ParseFile(fs: FileSystem, lines: seq<string>) returns (r: Result<seq<PathSpec>, SpecError>, ghost order: seq<string>)
    ensures r.Ok? <==> forall i :: 0 <= i < |lines| && Strip(lines[i]) != [] ==> ParsePathData(fs, lines[i]).Ok?
    ensures r.Err? ==> exists i :: 0 <= i < |lines| && Strip(lines[i]) != [] && ParsePathData(fs, lines[i]) == Err(r.error)
    ensures r.Ok? ==> Enumerates(order, DistinctTokens(lines)) && |r.value| == |order| == |DistinctTokens(lines)|
    ensures r.Ok? ==> forall j :: 0 <= j < |order| ==> ParsePathData(fs, order[j]) == Ok(r.value[j])
  {
    var pathSet := CollectTokens(lines);
    forall t | t in pathSet ensures Strip(t) == t && t != [] {
      TokensTrimmed(lines, t);
    }
    r, order := ParseTokens(pathSet, t => ParsePathData(fs, t));
    LinesAndTokens(fs, lines);
    if r.Ok? {
      EnumerationSize(order, pathSet);
    } else {
      ghost var t :| t in pathSet && ParsePathData(fs, t) == Err(r.error);
      ghost var k :| 0 <= k < |lines| && Strip(lines[k]) != [] && Strip(lines[k]) == t;
      ParseStripped(fs, lines[k]);
    }
  }

  /** Every non-blank line parses exactly when every token does. */
  lemma LinesAndTokens(fs: FileSystem, lines: seq<string>)
    ensures (forall i :: 0 <= i < |lines| && Strip(lines[i]) != [] ==> ParsePathData(fs, lines[i]).Ok?)
        <==> (forall t :: t in DistinctTokens(lines) ==> ParsePathData(fs, t).Ok?)
  {
    forall i | 0 <= i < |lines| {
      ParseStripped(fs, lines[i]);
    }
  }

  /** `parse_pathdata` for a given file system, as the function that
      argparse and `parse_file` apply to each token. */
  function Parser(fs: FileSystem): string -> Result<PathSpec, SpecError> {
    t => ParsePathData(fs, t)
  }

  /** Parsing tokens one after the other, the first failure ending the
      run (its meaning is stated by `ParseAllOk` and `ParseAllErr`). */
  function ParseAll(tokens: seq<string>, parse: string -> Result<PathSpec, SpecError>): Result<seq<PathSpec>, SpecError> {
    if tokens == [] then Ok([])
    else
      match ParseAll(tokens[..|tokens| - 1], parse)
      case Err(e) => Err(e)
      case Ok(specs) =>
        match parse(tokens[|tokens| - 1])
        case Err(e) => Err(e)
        case Ok(spec) => Ok(specs + [spec])
  }

  /** The run succeeds exactly when every token parses, and then gives one
      specification per token, in order. */
  lemma {:induction false} ParseAllOk(tokens: seq<string>, parse: string -> Result<PathSpec, SpecError>)
    ensures ParseAll(tokens, parse).Ok? <==> forall j :: 0 <= j < |tokens| ==> parse(tokens[j]).Ok?
    ensures ParseAll(tokens, parse).Ok? ==>
      (|ParseAll(tokens, parse).value| == |tokens| &&
       forall j :: 0 <= j < |tokens| ==> parse(tokens[j]) == Ok(ParseAll(tokens, parse).value[j]))
    decreases |tokens|
  {
    if tokens != [] {
      var init := tokens[..|tokens| - 1];
      ParseAllOk(init, parse);
      assert forall j :: 0 <= j < |init| ==> tokens[j] == init[j];
    }
  }

  /** A failed run reports the error of the first token that fails. */
  lemma {:induction false} ParseAllErr(tokens: seq<string>, parse: string -> Result<PathSpec, SpecError>)
    requires ParseAll(tokens, parse).Err?
    ensures exists j :: (0 <= j < |tokens| && parse(tokens[j]) == Err(ParseAll(tokens, parse).error) &&
      forall i :: 0 <= i < j ==> parse(tokens[i]).Ok?)
    decreases |tokens|
  {
    var init := tokens[..|tokens| - 1];
    var last := |tokens| - 1;
    assert forall j :: 0 <= j < |init| ==> tokens[j] == init[j];
    if ParseAll(init, parse).Err? {
      ParseAllErr(init, parse);
      var j :| 0 <= j < |init| && parse(init[j]) == Err(ParseAll(init, parse).error) &&
        forall i :: 0 <= i < j ==> parse(init[i]).Ok?;
      assert parse(tokens[j]) == Err(ParseAll(tokens, parse).error);
    } else {
      ParseAllOk(init, parse);
      assert parse(tokens[last]) == Err(ParseAll(tokens, parse).error);
    }
  }

  /** Once a prefix of the tokens fails, the later tokens change
      nothing. */
  lemma {:induction false} ParseAllStaysErr(tokens: seq<string>, parse: string -> Result<PathSpec, SpecError>, k: nat)
    requires k <= |tokens| && ParseAll(tokens[..k], parse).Err?
    ensures ParseAll(tokens, parse) == ParseAll(tokens[..k], parse)
    decreases |tokens|
  {
    if k < |tokens| {
      var init := tokens[..|tokens| - 1];
      assert init[..k] == tokens[..k];
      ParseAllStaysErr(init, parse, k);
    } else {
      assert tokens[..k] == tokens;
    }
  }

  /** Each token given to `parse` in turn, the first failure ending the
      run: argparse's `type=parse_pathdata` on the positional tokens, and
      the `for` loop of `parse_file` once its tokens are in a sequence. */
  method ParseEach(tokens: seq<string>, parse: string -> Result<PathSpec, SpecError>) returns (r: Result<seq<PathSpec>, SpecError>)
    ensures r == ParseAll(tokens, parse)
  {
    var specs: seq<PathSpec> := [];
    var k := 0;
    while k < |tokens|
      invariant 0 <= k <= |tokens|
      invariant ParseAll(tokens[..k], parse) == Ok(specs)
    {
      assert tokens[..k + 1][..k] == tokens[..k];
      match parse(tokens[k])
      case Err(e) =>
        ParseAllStaysErr(tokens, parse, k + 1);
        return Err(e);
      case Ok(spec) =>
        specs := specs + [spec];
        k := k + 1;
    }
    assert tokens[..k] == tokens;
    r := Ok(specs);
  }

  /** The file's specifications with the distinct tokens visited in
      ascending order, a fixed order in place of the set's iteration
      order, so that the result no longer varies from run to run. */
  function FileSpecs(fs: FileSystem, lines: seq<string>): Result<seq<PathSpec>, SpecError> {
    ParseAll(SortedKeys(DistinctTokens(lines)), Parser(fs))
  }

  /** `parse_file` with `for pathdata in sorted(path_set)`. */
  method ParseFileSorted(fs: FileSystem, lines: seq<string>) returns (r: Result<seq<PathSpec>, SpecError>)
    ensures r == FileSpecs(fs, lines)
  {
    var pathSet := CollectTokens(lines);
    var tokens := SortedKeys(pathSet);
    r := ParseEach(tokens, Parser(fs));
  }

  /** The tokens in ascending order list each distinct token once. */
  lemma SortedTokens(lines: seq<string>)
    ensures Enumerates(SortedKeys(DistinctTokens(lines)), DistinctTokens(lines))
    ensures |SortedKeys(DistinctTokens(lines))| == |DistinctTokens(lines)|
  {
    var tokens := SortedKeys(DistinctTokens(lines));
    assert forall i, j :: 0 <= i < j < |tokens| ==> LexLt(tokens[i], tokens[j]);
    EnumerationSize(tokens, DistinctTokens(lines));
  }

  /** The sorted reading succeeds exactly when every non-blank line
      parses. */
  lemma FileSpecsOk(fs: FileSystem, lines: seq<string>)
    ensures FileSpecs(fs, lines).Ok? <==>
      forall i :: 0 <= i < |lines| && Strip(lines[i]) != [] ==> ParsePathData(fs, lines[i]).Ok?
  {
    var tokens := SortedKeys(DistinctTokens(lines));
    LinesAndTokens(fs, lines);
    ParseAllOk(tokens, Parser(fs));
    assert forall t :: t in DistinctTokens(lines) <==> exists j :: 0 <= j < |tokens| && tokens[j] == t;
  }

  /** A failed sorted reading reports the error of a non-blank line. */
  lemma FileSpecsErr(fs: FileSystem, lines: seq<string>)
    requires FileSpecs(fs, lines).Err?
    ensures exists i :: 0 <= i < |lines| && Strip(lines[i]) != [] && ParsePathData(fs, lines[i]) == Err(FileSpecs(fs, lines).error)
  {
    var tokens := SortedKeys(DistinctTokens(lines));
    ParseAllErr(tokens, Parser(fs));
    var j :| 0 <= j < |tokens| && Parser(fs)(tokens[j]) == Err(FileSpecs(fs, lines).error);
    assert tokens[j] in DistinctTokens(lines);
    var k :| 0 <= k < |lines| && Strip(lines[k]) != [] && Strip(lines[k]) == tokens[j];
    ParseStripped(fs, lines[k]);
  }

  /** A successful sorted reading gives one specification per distinct
      token, in ascending token order. */
  lemma FileSpecsValues(fs: FileSystem, lines: seq<string>)
    requires FileSpecs(fs, lines).Ok?
    ensures |FileSpecs(fs, lines).value| == |SortedKeys(DistinctTokens(lines))| == |DistinctTokens(lines)|
    ensures forall j :: 0 <= j < |FileSpecs(fs, lines).value| ==>
      ParsePathData(fs, SortedKeys(DistinctTokens(lines))[j]) == Ok(FileSpecs(fs, lines).value[j])
  {
    SortedTokens(lines);
    ParseAllOk(SortedKeys(DistinctTokens(lines)), Parser(fs));
  }

  /** The sorted reading depends only on which non-blank lines the file
      holds once stripped: not on their order, on blank lines, on
      repeated lines or on surrounding whitespace. */
  lemma FileSpecsLineOrder(fs: FileSystem, a: seq<string>, b: seq<string>)
    requires forall i :: 0 <= i < |a| && Strip(a[i]) != [] ==> exists j :: 0 <= j < |b| && Strip(b[j]) == Strip(a[i])
    requires forall j :: 0 <= j < |b| && Strip(b[j]) != [] ==> exists i :: 0 <= i < |a| && Strip(a[i]) == Strip(b[j])
    ensures FileSpecs(fs, a) == FileSpecs(fs, b)
  {
    SameStrippedLines(a, b);
    SameStrippedLines(b, a);
    assert DistinctTokens(a) == DistinctTokens(b);
  }

  /** Every token of `a` is a token of `b` when each non-blank line of
      `a` occurs in `b` once stripped. */
  lemma SameStrippedLines(a: seq<string>, b: seq<string>)
    requires forall i :: 0 <= i < |a| && Strip(a[i]) != [] ==> exists j :: 0 <= j < |b| && Strip(b[j]) == Strip(a[i])
    ensures DistinctTokens(a) <= DistinctTokens(b)
  {
    forall t | t in DistinctTokens(a) ensures t in DistinctTokens(b) {
      var i :| 0 <= i < |a| && Strip(a[i]) != [] && Strip(a[i]) == t;
      var j :| 0 <= j < |b| && Strip(b[j]) == Strip(a[i]);
    }
  }

  /** A blank or repeated line does not change the sorted reading. */
  lemma FileSpecsRepeatIgnored(fs: FileSystem, lines: seq<string>, line: string)
    requires Strip(line) == [] || exists i :: 0 <= i < |lines| && Strip(lines[i]) == Strip(line)
    ensures FileSpecs(fs, lines + [line]) == FileSpecs(fs, lines)
  {
    RepeatOrBlankIgnored(lines, line);
  }
}
