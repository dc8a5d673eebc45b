/** The assembly half of `main`: the sorted buckets become the ordered
    list of `qresource` groups. The bucket without prefix and lang comes
    first, then the other buckets without prefix by ascending lang, then
    each prefix in ascending order with its lang-less bucket before its
    langs in ascending order. */
module Manifest {
  import opened Wrappers
  import opened Text
  import opened ResourceTree

  /** One `qresource` dictionary: `{'prefix'?, 'lang'?, 'files'}`. */
  datatype Group = Group(prefix: Option<string>, lang: Option<string>, files: seq<FileEntry>)

  /** The order of the output on one attribute: absent before present,
      present values by Python's string order. */
  predicate OptLt(a: Option<string>, b: Option<string>) {
    match (a, b)
    case (None, Some(_)) => true
    case (Some(x), Some(y)) => LexLt(x, y)
    case _ => false
  }

  /** The order of the output: by prefix, then by lang. */
  predicate KeyLt(g: Group, h: Group) {
    OptLt(g.prefix, h.prefix) || (g.prefix == h.prefix && OptLt(g.lang, h.lang))
  }

  /** Strictly ascending, hence no bucket twice. */
  predicate InOrder(groups: seq<Group>) {
    forall i, j :: 0 <= i < j < |groups| ==> KeyLt(groups[i], groups[j])
  }

  /** `g` is the group of one bucket of `tree`, with that bucket's files. */
  ghost predicate IsBucketGroup(tree: Tree, g: Group) {
    g.prefix in tree && g.lang in tree[g.prefix] && g.files == tree[g.prefix][g.lang]
  }

  /** `groups` lists every bucket of `tree`, nothing else, each once, in
      the output order. */
  ghost predicate ListsBuckets(tree: Tree, groups: seq<Group>) {
    InOrder(groups) && forall g :: g in groups <==> IsBucketGroup(tree, g)
  }

  /** The prefixes of a tree that are present: the keys `sorted` sees
      once `None` is popped. */
  function Prefixes(tree: Tree): set<string> {
    set k | k in tree.Keys && k.Some? :: k.value
  }

  /** The langs of a prefix's buckets that are present. */
  function Langs(inner: map<Option<string>, seq<FileEntry>>): set<string> {
    set k | k in inner.Keys && k.Some? :: k.value
  }

  /** One group per lang of `langs`, in that order. */
  function LangGroups(prefix: Option<string>, inner: map<Option<string>, seq<FileEntry>>, langs: seq<string>): seq<Group>
    requires forall l :: l in langs ==> Some(l) in inner
  {
    if langs == [] then []
    else
      var last := langs[|langs| - 1];
      LangGroups(prefix, inner, langs[..|langs| - 1]) + [Group(prefix, Some(last), inner[Some(last)])]
  }

  /** The groups of one prefix: its lang-less bucket, then its langs in
      ascending order. */
  function PrefixBlock(prefix: Option<string>, inner: map<Option<string>, seq<FileEntry>>): seq<Group> {
    (if None in inner then [Group(prefix, None, inner[None])] else [])
      + LangGroups(prefix, inner, SortedKeys(Langs(inner)))
  }

  /** The blocks of the present prefixes `ps`, in that order. */
  function Blocks(tree: Tree, ps: seq<string>): seq<Group>
    requires forall p :: p in ps ==> Some(p) in tree
  {
    if ps == [] then []
    else
      var last := ps[|ps| - 1];
      Blocks(tree, ps[..|ps| - 1]) + PrefixBlock(Some(last), tree[Some(last)])
  }

  /** The assembled `qresources` list. */
  function Assemble(tree: Tree): seq<Group> {
    (if None in tree then PrefixBlock(None, tree[None]) else [])
      + Blocks(tree, SortedKeys(Prefixes(tree)))
  }

  /** Two ordered lists, the first wholly before the second, make an
      ordered list. */
  lemma InOrderConcat(a: seq<Group>, b: seq<Group>)
    requires InOrder(a) && InOrder(b)
    requires forall x, y :: x in a && y in b ==> KeyLt(x, y)
    ensures InOrder(a + b)
  {
    forall i, j | 0 <= i < j < |a + b| ensures KeyLt((a + b)[i], (a + b)[j]) {
      if i < |a| && j >= |a| {
        assert (a + b)[i] == a[i] && (a + b)[j] == b[j - |a|];
      }
    }
  }

  lemma {:induction false} LangGroupsLists(prefix: Option<string>, inner: map<Option<string>, seq<FileEntry>>, langs: seq<string>)
    requires forall l :: l in langs ==> Some(l) in inner
    requires StrictlyAscending(langs)
    ensures forall g :: g in LangGroups(prefix, inner, langs) <==>
      g.prefix == prefix && g.lang.Some? && g.lang.value in langs && g.files == inner[g.lang]
    ensures InOrder(LangGroups(prefix, inner, langs))
  {
    if langs != [] {
      var init := langs[..|langs| - 1];
      var last := langs[|langs| - 1];
      assert forall l :: l in langs <==> l in init || l == last;
      assert StrictlyAscending(init);
      LangGroupsLists(prefix, inner, init);
      var lg := LangGroups(prefix, inner, init);
      var g := Group(prefix, Some(last), inner[Some(last)]);
      forall x | x in lg ensures KeyLt(x, g) {
        var i :| 0 <= i < |init| && init[i] == x.lang.value;
        assert LexLt(langs[i], langs[|langs| - 1]);
      }
      InOrderConcat(lg, [g]);
    }
  }

  /** A prefix's block lists each of its buckets once, in order. */
  lemma PrefixBlockLists(prefix: Option<string>, inner: map<Option<string>, seq<FileEntry>>)
    ensures forall g :: g in PrefixBlock(prefix, inner) <==>
      g.prefix == prefix && g.lang in inner && g.files == inner[g.lang]
    ensures InOrder(PrefixBlock(prefix, inner))
  {
    var langs := SortedKeys(Langs(inner));
    LangGroupsLists(prefix, inner, langs);
    var head := if None in inner then [Group(prefix, None, inner[None])] else [];
    var lg := LangGroups(prefix, inner, langs);
    forall g: Group | g.prefix == prefix && g.lang in inner && g.files == inner[g.lang]
      ensures g in head + lg
    {
      if g.lang.Some? {
        assert g.lang.value in Langs(inner);
      }
    }
    InOrderConcat(head, lg);
  }

  lemma {:induction false} BlocksList(tree: Tree, ps: seq<string>)
    requires forall p :: p in ps ==> Some(p) in tree
    requires StrictlyAscending(ps)
    ensures forall g :: g in Blocks(tree, ps) <==>
      g.prefix.Some? && g.prefix.value in ps && IsBucketGroup(tree, g)
    ensures InOrder(Blocks(tree, ps))
  {
    if ps != [] {
      var init := ps[..|ps| - 1];
      var last := ps[|ps| - 1];
      assert forall p :: p in ps <==> p in init || p == last;
      assert StrictlyAscending(init);
      BlocksList(tree, init);
      PrefixBlockLists(Some(last), tree[Some(last)]);
      var bs := Blocks(tree, init);
      var pb := PrefixBlock(Some(last), tree[Some(last)]);
      forall x, y | x in bs && y in pb ensures KeyLt(x, y) {
        var i :| 0 <= i < |init| && init[i] == x.prefix.value;
        assert LexLt(ps[i], ps[|ps| - 1]);
      }
      InOrderConcat(bs, pb);
    }
  }

  /** The assembled list names every bucket exactly once, in the output
      order, each with that bucket's files. */
  lemma AssembleLists(tree: Tree)
    ensures ListsBuckets(tree, Assemble(tree))
  {
    var ps := SortedKeys(Prefixes(tree));
    assert forall p :: p in ps ==> Some(p) in tree;
    BlocksList(tree, ps);
    var head := if None in tree then PrefixBlock(None, tree[None]) else [];
    if None in tree {
      PrefixBlockLists(None, tree[None]);
    }
    var bs := Blocks(tree, ps);
    forall g | IsBucketGroup(tree, g) ensures g in head + bs {
      if g.prefix.Some? {
        assert g.prefix.value in Prefixes(tree);
      }
    }
    InOrderConcat(head, bs);
  }

  lemma KeyLtIrreflexive(g: Group)
    ensures !KeyLt(g, g)
  {
  }

  lemma LexLtTransitive(a: string, b: string, c: string)
    requires LexLt(a, b) && LexLt(b, c)
    ensures LexLt(a, c)
  {
    LexLeTransitive(a, b, c);
    if a == c {
      LexLeAntisymmetric(a, b);
    }
  }

  lemma KeyLtTransitive(f: Group, g: Group, h: Group)
    requires KeyLt(f, g) && KeyLt(g, h)
    ensures KeyLt(f, h)
  {
    if f.prefix.Some? && g.prefix.Some? && h.prefix.Some? {
      if f.prefix != g.prefix && g.prefix != h.prefix {
        LexLtTransitive(f.prefix.value, g.prefix.value, h.prefix.value);
      }
    }
    if f.prefix == g.prefix == h.prefix && f.lang.Some? && g.lang.Some? && h.lang.Some? {
      LexLtTransitive(f.lang.value, g.lang.value, h.lang.value);
    }
  }

  /** Two ordered lists of the same groups are the same list. */
  lemma {:induction false} InOrderUnique(a: seq<Group>, b: seq<Group>)
    requires InOrder(a) && InOrder(b)
    requires forall g :: g in a <==> g in b
    ensures a == b
    decreases |a|
  {
    assert a == [] || a[0] in a;
    assert b == [] || b[0] in b;
    if a != [] {
      var i :| 0 <= i < |a| && a[i] == b[0];
      var j :| 0 <= j < |b| && b[j] == a[0];
      if i > 0 && j > 0 {
        KeyLtTransitive(a[0], a[i], a[0]);
        KeyLtIrreflexive(a[0]);
      }
      assert a[0] == b[0];
      forall g ensures g in a[1..] <==> g in b[1..] {
        if g in a[1..] {
          TailMember(a, b, g);
        }
        if g in b[1..] {
          TailMember(b, a, g);
        }
      }
      InOrderUnique(a[1..], b[1..]);
      assert a == [a[0]] + a[1..] && b == [b[0]] + b[1..];
    }
  }

  /** Past a common first group, a member of one ordered list's tail is
      in the other's tail. */
  lemma TailMember(a: seq<Group>, b: seq<Group>, g: Group)
    requires InOrder(a) && InOrder(b) && a != [] && b != [] && a[0] == b[0]
    requires forall h :: h in a ==> h in b
    requires g in a[1..]
    ensures g in b[1..]
  {
    var k :| 0 <= k < |a[1..]| && a[1..][k] == g;
    assert a[k + 1] == g && g in b;
    KeyLtIrreflexive(g);
    var m :| 0 <= m < |b| && b[m] == g;
    assert b[1..][m - 1] == g;
  }

  /** The output order is forced: any list of the buckets in that order
      is the assembled one. */
  lemma ListingIsUnique(tree: Tree, groups: seq<Group>)
    requires ListsBuckets(tree, groups)
    ensures groups == Assemble(tree)
  {
    AssembleLists(tree);
    InOrderUnique(groups, Assemble(tree));
  }

  /** The three-tier assembly loop of `main`. `None` is popped from the
      outer dictionary, and from each inner one, before the remaining
      keys are sorted. */
  method AssembleGroups(tree: Tree) returns (groups: seq<Group>)
    ensures groups == Assemble(tree)
    ensures ListsBuckets(tree, groups)
  {
    groups := [];
    var qresources := tree;
    if None in qresources {
      var nonPrefix := qresources[None];
      qresources := qresources - {None};
      groups := AppendPrefix(groups, None, nonPrefix);
    }
    ghost var head := groups;
    PopNonePrefix(tree);
    var prefixes := SortedKeys(Prefixes(qresources));
    groups := AppendBlocks(groups, qresources, prefixes);
    AssembleAfterPop(tree, qresources, head);
    AssembleLists(tree);
  }

  /** The assembled list is the block of `None`, then the blocks of the
      prefixes left once `None` is popped. */
  lemma AssembleAfterPop(tree: Tree, popped: Tree, head: seq<Group>)
    requires Prefixes(popped) == Prefixes(tree)
    requires forall p :: p in Prefixes(tree) ==> Some(p) in popped && Some(p) in tree && popped[Some(p)] == tree[Some(p)]
    requires head == (if None in tree then PrefixBlock(None, tree[None]) else [])
    ensures head + Blocks(popped, SortedKeys(Prefixes(popped))) == Assemble(tree)
  {
    BlocksAgree(popped, tree, SortedKeys(Prefixes(tree)));
  }

  /** Popping `None` leaves the prefixes and their dictionaries alone. */
  lemma PopNonePrefix(tree: Tree)
    ensures Prefixes(tree - {None}) == Prefixes(tree)
    ensures forall p :: p in Prefixes(tree) ==> Some(p) in tree && Some(p) in tree - {None}
  {
  }

  /** One more prefix adds its block at the end. */
  lemma BlocksSnoc(groups: seq<Group>, tree: Tree, ps: seq<string>, k: nat)
    requires k < |ps| && forall q :: q in ps ==> Some(q) in tree
    ensures groups + Blocks(tree, ps[..k]) + PrefixBlock(Some(ps[k]), tree[Some(ps[k])]) == groups + Blocks(tree, ps[..k + 1])
  {
    assert ps[..k + 1][..k] == ps[..k];
  }

  /** `for prefix in sorted(qresource_dict)`: each prefix's groups, in
      order. */
  method AppendBlocks(groups: seq<Group>, qresources: Tree, prefixes: seq<string>)
    returns (extended: seq<Group>)
    requires forall p :: p in prefixes ==> Some(p) in qresources
    ensures extended == groups + Blocks(qresources, prefixes)
  {
    extended := groups;
    var k := 0;
    while k < |prefixes|
      invariant 0 <= k <= |prefixes|
      invariant extended == groups + Blocks(qresources, prefixes[..k])
    {
      var prefix := prefixes[k];
      BlocksSnoc(groups, qresources, prefixes, k);
      extended := AppendPrefix(extended, Some(prefix), qresources[Some(prefix)]);
      k := k + 1;
    }
    assert prefixes[..k] == prefixes;
  }

  /** The blocks only read the dictionaries of the prefixes listed. */
  lemma {:induction false} BlocksAgree(tree: Tree, other: Tree, ps: seq<string>)
    requires forall p :: p in ps ==> Some(p) in tree && Some(p) in other && tree[Some(p)] == other[Some(p)]
    ensures Blocks(tree, ps) == Blocks(other, ps)
  {
    if ps != [] {
      BlocksAgree(tree, other, ps[..|ps| - 1]);
    }
  }

  /** The groups of one prefix, appended: the lang-less bucket popped
      first, then the langs in ascending order. */
  method AppendPrefix(groups: seq<Group>, prefix: Option<string>, inner: map<Option<string>, seq<FileEntry>>) returns (extended: seq<Group>)
    ensures extended == groups + PrefixBlock(prefix, inner)
  {
    extended := groups;
    var rest := inner;
    if None in rest {
      var nonLang := rest[None];
      rest := rest - {None};
      extended := extended + [Group(prefix, None, nonLang)];
    }
    ghost var head := extended;
    PopNone(inner);
    var langs := SortedKeys(Langs(rest));
    extended := AppendLangs(extended, prefix, rest, inner, langs);
    PrefixBlockAfterPop(groups, head, prefix, inner, rest);
  }

  /** The block of a prefix is its lang-less group, then the groups of
      the langs left once `None` is popped. */
  lemma PrefixBlockAfterPop(groups: seq<Group>, head: seq<Group>, prefix: Option<string>,
                            inner: map<Option<string>, seq<FileEntry>>, rest: map<Option<string>, seq<FileEntry>>)
    requires Langs(rest) == Langs(inner)
    requires forall l :: l in SortedKeys(Langs(inner)) ==> Some(l) in inner
    requires head == groups + (if None in inner then [Group(prefix, None, inner[None])] else [])
    ensures head + LangGroups(prefix, inner, SortedKeys(Langs(rest))) == groups + PrefixBlock(prefix, inner)
  {
  }

  /** Popping `None` leaves the langs and their buckets alone. */
  lemma PopNone(inner: map<Option<string>, seq<FileEntry>>)
    ensures Langs(inner - {None}) == Langs(inner)
    ensures forall l :: l in Langs(inner) ==> Some(l) in inner && Some(l) in inner - {None}
  {
  }

  /** `for lang in sorted(prefix_dict)`: one group per lang, in order. */
  method AppendLangs(groups: seq<Group>, prefix: Option<string>, rest: map<Option<string>, seq<FileEntry>>,
                     ghost inner: map<Option<string>, seq<FileEntry>>, langs: seq<string>)
    returns (extended: seq<Group>)
    requires forall l :: l in langs ==> Some(l) in rest && Some(l) in inner && rest[Some(l)] == inner[Some(l)]
    ensures extended == groups + LangGroups(prefix, inner, langs)
  {
    extended := groups;
    var k := 0;
    while k < |langs|
      invariant 0 <= k <= |langs|
      invariant extended == groups + LangGroups(prefix, inner, langs[..k])
    {
      var lang := langs[k];
      assert langs[..k + 1] == langs[..k] + [lang];
      extended := extended + [Group(prefix, Some(lang), rest[Some(lang)])];
      k := k + 1;
    }
    assert langs[..k] == langs;
  }
}
