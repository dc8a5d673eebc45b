/** `gen_qrc_file`, up to the XML writer: the `qrc_dict` document
    becomes an `RCC` element holding one `qresource` element per group,
    each holding one `file` element per record. Optional attributes are
    set only when the dictionary has them. A decoder reads the document
    back from the tree and states which trees are well formed. */
module QrcTree {
  import opened Wrappers
  import opened ResourceTree
  import opened Manifest

  /** `qrc_dict`: `{'version': ..., 'qresources': [...]}`. */
  datatype Document = Document(version: string, resources: seq<Group>)

  datatype Attr = Attr(name: string, value: string)

  /** An element: tag, attributes in the order they were first set,
      text, children. */
  datatype Element = Element(tag: string, attrs: seq<Attr>, text: Option<string>, children: seq<Element>)

  /** `element.get(name)`. */
  function GetAttr(attrs: seq<Attr>, name: string): Option<string> {
    if attrs == [] then None
    else if attrs[0].name == name then Some(attrs[0].value)
    else GetAttr(attrs[1..], name)
  }

  /** `element.set(name, value)`: an attribute of that name is replaced
      where it stands, otherwise the attribute is added at the end. */
  function SetAttr(attrs: seq<Attr>, name: string, value: string): (r: seq<Attr>)
    ensures GetAttr(r, name) == Some(value)
    ensures forall other :: other != name ==> GetAttr(r, other) == GetAttr(attrs, other)
    ensures forall a :: a in r ==> a in attrs || a == Attr(name, value)
  {
    if attrs == [] then [Attr(name, value)]
    else if attrs[0].name == name then [Attr(name, value)] + attrs[1..]
    else [attrs[0]] + SetAttr(attrs[1..], name, value)
  }

  /** Every attribute has one of the allowed names. */
  predicate NamesWithin(attrs: seq<Attr>, allowed: set<string>) {
    forall a :: a in attrs ==> a.name in allowed
  }

  /** A `file` element: no attribute but `alias`, the file name as text,
      no children. */
  function DecodeFile(e: Element): Option<FileEntry> {
    if e.tag == "file" && NamesWithin(e.attrs, {"alias"}) && e.text.Some? && e.children == [] then
      Some(FileEntry(e.text.value, GetAttr(e.attrs, "alias")))
    else None
  }

  function DecodeFiles(es: seq<Element>): Option<seq<FileEntry>> {
    if es == [] then Some([])
    else
      match (DecodeFiles(es[..|es| - 1]), DecodeFile(es[|es| - 1]))
      case (Some(init), Some(last)) => Some(init + [last])
      case _ => None
  }

  /** A `qresource` element: no attribute but `prefix` and `lang`, no
      text, `file` children. */
  function DecodeResource(e: Element): Option<Group> {
    if e.tag == "qresource" && NamesWithin(e.attrs, {"prefix", "lang"}) && e.text.None? then
      match DecodeFiles(e.children)
      case Some(files) => Some(Group(GetAttr(e.attrs, "prefix"), GetAttr(e.attrs, "lang"), files))
      case None => None
    else None
  }

  function DecodeResources(es: seq<Element>): Option<seq<Group>> {
    if es == [] then Some([])
    else
      match (DecodeResources(es[..|es| - 1]), DecodeResource(es[|es| - 1]))
      case (Some(init), Some(last)) => Some(init + [last])
      case _ => None
  }

  /** The root: an `RCC` element whose only attribute is `version`, no
      text, `qresource` children. */
  function DecodeRcc(root: Element): Option<Document> {
    if root.tag == "RCC" && NamesWithin(root.attrs, {"version"}) && root.text.None? && GetAttr(root.attrs, "version").Some? then
      match DecodeResources(root.children)
      case Some(groups) => Some(Document(GetAttr(root.attrs, "version").value, groups))
      case None => None
    else None
  }

  /** The attributes of a `qresource` element under construction. */
  predicate ResourceAttrs(attrs: seq<Attr>, prefix: Option<string>, lang: Option<string>) {
    NamesWithin(attrs, {"prefix", "lang"}) && GetAttr(attrs, "prefix") == prefix && GetAttr(attrs, "lang") == lang
  }

  /** One `file` element for one record. */
  method FileElement(entry: FileEntry) returns (e: Element)
    ensures DecodeFile(e) == Some(entry)
  {
    e := Element("file", [], None, []);
    if entry.alias.Some? {
      e := e.(attrs := SetAttr(e.attrs, "alias", entry.alias.value));
    }
    e := e.(text := Some(entry.file));
  }

  /** One `qresource` element for one group: `prefix` and `lang` set
      only when present, then one `file` child per record, in order. */
  method ResourceElement(group: Group) returns (e: Element)
    ensures DecodeResource(e) == Some(group)
  {
    e := Element("qresource", [], None, []);
    if group.prefix.Some? {
      e := e.(attrs := SetAttr(e.attrs, "prefix", group.prefix.value));
    }
    if group.lang.Some? {
      e := e.(attrs := SetAttr(e.attrs, "lang", group.lang.value));
    }
    var j := 0;
    while j < |group.files|
      invariant 0 <= j <= |group.files|
      invariant e.tag == "qresource" && e.text.None?
      invariant ResourceAttrs(e.attrs, group.prefix, group.lang)
      invariant DecodeFiles(e.children) == Some(group.files[..j])
    {
      var child := FileElement(group.files[j]);
      assert (e.children + [child])[..|e.children|] == e.children;
      assert group.files[..j + 1] == group.files[..j] + [group.files[j]];
      e := e.(children := e.children + [child]);
      j := j + 1;
    }
    assert group.files[..j] == group.files;
  }

  /** The element tree of `gen_qrc_file`: it decodes back to exactly the
      document it was built from. */
  method BuildElementTree(doc: Document) returns (root: Element)
    ensures DecodeRcc(root) == Some(doc)
  {
    root := Element("RCC", [], None, []);
    root := root.(attrs := SetAttr(root.attrs, "version", doc.version));
    var i := 0;
    while i < |doc.resources|
      invariant 0 <= i <= |doc.resources|
      invariant root.tag == "RCC" && root.text.None?
      invariant root.attrs == [Attr("version", doc.version)]
      invariant DecodeResources(root.children) == Some(doc.resources[..i])
    {
      var child := ResourceElement(doc.resources[i]);
      assert (root.children + [child])[..|root.children|] == root.children;
      assert doc.resources[..i + 1] == doc.resources[..i] + [doc.resources[i]];
      root := root.(children := root.children + [child]);
      i := i + 1;
    }
    assert doc.resources[..i] == doc.resources;
  }

  /** An attribute of that name is present. */
  predicate HasAttr(e: Element, name: string) {
    exists a :: a in e.attrs && a.name == name
  }

  lemma {:induction false} GetAttrPresent(attrs: seq<Attr>, name: string)
    ensures GetAttr(attrs, name).Some? <==> exists a :: a in attrs && a.name == name
  {
    if attrs != [] {
      GetAttrPresent(attrs[1..], name);
      assert forall a :: a in attrs <==> a == attrs[0] || a in attrs[1..];
    }
  }

  /** In a well-formed `qresource` element, `prefix` and `lang` are
      present exactly when the group has them, and nothing else is. */
  lemma ResourceAttributesOnlyWhenPresent(e: Element, g: Group)
    requires DecodeResource(e) == Some(g)
    ensures HasAttr(e, "prefix") <==> g.prefix.Some?
    ensures HasAttr(e, "lang") <==> g.lang.Some?
    ensures forall a :: a in e.attrs ==> a.name == "prefix" || a.name == "lang"
  {
    GetAttrPresent(e.attrs, "prefix");
    GetAttrPresent(e.attrs, "lang");
  }

  /** In a well-formed `file` element, `alias` is present exactly when the
      record has one, and the text is the record's file name. */
  lemma FileAttributesOnlyWhenPresent(e: Element, entry: FileEntry)
    requires DecodeFile(e) == Some(entry)
    ensures HasAttr(e, "alias") <==> entry.alias.Some?
    ensures forall a :: a in e.attrs ==> a.name == "alias"
    ensures e.text == Some(entry.file)
  {
    GetAttrPresent(e.attrs, "alias");
  }

  /** A well-formed tree has one `qresource` child per group, in order,
      and one `file` grandchild per record, in order. */
  lemma {:induction false} ResourcesInOrder(es: seq<Element>, groups: seq<Group>)
    requires DecodeResources(es) == Some(groups)
    ensures |es| == |groups|
    ensures forall i :: 0 <= i < |es| ==> DecodeResource(es[i]) == Some(groups[i])
  {
    if es != [] {
      var init := es[..|es| - 1];
      var g :| DecodeResource(es[|es| - 1]) == Some(g);
      var gs :| DecodeResources(init) == Some(gs);
      assert groups == gs + [g];
      ResourcesInOrder(init, gs);
      forall i | 0 <= i < |es| ensures DecodeResource(es[i]) == Some(groups[i]) {
        if i < |init| {
          assert es[i] == init[i];
        }
      }
    }
  }

  lemma {:induction false} FilesInOrder(es: seq<Element>, entries: seq<FileEntry>)
    requires DecodeFiles(es) == Some(entries)
    ensures |es| == |entries|
    ensures forall i :: 0 <= i < |es| ==> DecodeFile(es[i]) == Some(entries[i])
  {
    if es != [] {
      var init := es[..|es| - 1];
      var f :| DecodeFile(es[|es| - 1]) == Some(f);
      var fs :| DecodeFiles(init) == Some(fs);
      assert entries == fs + [f];
      FilesInOrder(init, fs);
      forall i | 0 <= i < |es| ensures DecodeFile(es[i]) == Some(entries[i]) {
        if i < |init| {
          assert es[i] == init[i];
        }
      }
    }
  }
}
