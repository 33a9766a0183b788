/**
  The template-substitution engine of svglue: a `Template` holds an SVG
  document and rewrites it in place.  Placeholder elements, found by their
  `id`, become `svg:use` references to externally supplied fragments that
  are appended to the document's shared `svg:defs` container; elements
  labelled as layout guides are pruned at the end.

  The functions over `State` say what each operation of the class does to
  the whole object (`_doc`, `_tid_cache`, `_defs`, and how many ids have
  been drawn from `uuid4`); the methods of `Template` carry the operations
  out on its fields and are proved to agree with them.
 */
module Svglue {
  import opened Xml

  const SVG_NS := "http://www.w3.org/2000/svg"
  const INKSCAPE_NS := "http://www.inkscape.org/namespaces/inkscape"
  const XLINK_NS := "http://www.w3.org/1999/xlink"

  const SVG_TAG := QName(SVG_NS, "svg")
  const DEFS_TAG := QName(SVG_NS, "defs")
  const USE_TAG := QName(SVG_NS, "use")
  const HREF_ATTR := QName(XLINK_NS, "href")
  const LABEL_ATTR := QName(INKSCAPE_NS, "label")
  const LAYOUT := "layout"

  const ID := QName("", "id")
  const HEIGHT := QName("", "height")
  const WIDTH := QName("", "width")
  /** The only attributes a placeholder keeps when it becomes a `use`. */
  const X := QName("", "x")
  const Y := QName("", "y")
  const ALLOWED_ATTRS: set<QName> := {X, Y}

  datatype Error =
    | ParseError                    // etree.fromstring rejects the markup
    | LookupError(tid: string)      // get_by_id: no match, or several
    | KeyError(key: string)         // the placeholder lacks `height` or `width`
    | AttributeError(name: string)  // a method called on None

  datatype Result<T> = Ok(value: T) | Err(error: Error)

  /** What `etree.fromstring` (or `etree.parse`) makes of a piece of markup. */
  datatype Parse = Parsed(tree: seq<Element>) | Malformed

  /**
    Where `Template.load` takes the document from: inline markup `src`, which
    `etree.fromstring` turns into an Element, or a `file`, which `etree.parse`
    turns into an ElementTree.  An empty `src` counts as absent and loads the file.
   */
  datatype Source = Markup(parsed: Parse) | File(parsed: Parse)

  /**
    The fields of a `Template`: the document, the id cache, the cached defs
    container, and the number of ids drawn so far from the id supply.  `isTree`
    says whether `_doc` is an ElementTree, which has `getroot`, rather than an
    Element, which does not; the arena `doc` is the same in both cases.
   */
  datatype State = State(doc: seq<Element>, tidCache: map<string, nat>, defs: Option<nat>, draws: nat, isTree: bool) {
    predicate Valid() {
      && WellFormed(doc)
      && (forall tid :: tid in tidCache ==> tidCache[tid] < |doc|)
      && (defs.Some? ==> defs.value < |doc|)
    }
  }

  /** The n-th id drawn from the supply `uuid`, which stands for successive calls of `str(uuid4())`. */
  function Draw(uuid: nat -> string, n: nat): string {
    uuid(n)
  }

  /** The result of an operation and the state it leaves, also when it fails part-way. */
  datatype Outcome<T> = Outcome(result: Result<T>, state: State)

  /** `Template(doc)`: a fresh template over a parsed document. */
  function Initial(doc: seq<Element>, isTree: bool): (s: State)
    requires WellFormed(doc)
    ensures s.Valid() && s.doc == doc && s.tidCache == map[] && s.defs == None && s.draws == 0 && s.isTree == isTree
  {
    State(doc, map[], None, 0, isTree)
  }

  /** `s'` is a later state of the same template: the arena only grows and cached lookups never change. */
  predicate Extends(s: State, s': State) {
    && |s.doc| <= |s'.doc|
    && (forall tid :: tid in s.tidCache ==> tid in s'.tidCache && s'.tidCache[tid] == s.tidCache[tid])
    && (s.defs.Some? ==> s'.defs == s.defs)
    && s'.isTree == s.isTree
  }

  // ---------------------------------------------------------------- get_by_id

  /** `get_by_id(tid)`: a cache hit is returned as is; otherwise the document must hold exactly one element with that id. */
  function GetByIdStep(s: State, tid: string): (o: Outcome<nat>)
    requires s.Valid()
    ensures o.state.Valid() && Extends(s, o.state)
    ensures o.state.doc == s.doc && o.state.defs == s.defs && o.state.draws == s.draws && o.state.isTree == s.isTree
    ensures tid in s.tidCache ==> o == Outcome(Ok(s.tidCache[tid]), s)
    ensures tid !in s.tidCache ==> (o.result.Ok? <==> exists i: nat :: UniquelySelected(s.doc, ID, tid, i))
    ensures tid !in s.tidCache && o.result.Ok? ==> UniquelySelected(s.doc, ID, tid, o.result.value)
    ensures o.result.Ok? ==> o.state.tidCache == s.tidCache[tid := o.result.value]
    ensures o.result.Err? ==> o.state == s && o.result.error == LookupError(tid)
  {
    if tid in s.tidCache then Outcome(Ok(s.tidCache[tid]), s)
    else
      var matches := Select(s.doc, ID, tid);
      SelectSingle(s.doc, ID, tid);
      if |matches| == 1 then Outcome(Ok(matches[0]), s.(tidCache := s.tidCache[tid := matches[0]]))
      else Outcome(Err(LookupError(tid)), s)
  }

  // ---------------------------------------------------------------- get_defs

  /** The query `/svg:svg/svg:defs`: the `defs` children of the root, in order, when the root is an `svg:svg`. */
  function RootDefs(doc: seq<Element>): (r: seq<nat>)
    requires WellFormed(doc)
    ensures forall d :: d in r <==> doc[Root].tag == SVG_TAG && d in doc[Root].children && d < |doc| && doc[d].tag == DEFS_TAG
  {
    if doc[Root].tag == SVG_TAG then ChildrenWithTag(doc, doc[Root].children, DEFS_TAG) else []
  }

  /** Child `k` of the root is its first `defs` child, and the root is an `svg:svg`. */
  predicate FirstDefsChild(doc: seq<Element>, k: nat)
    requires WellFormed(doc)
  {
    && doc[Root].tag == SVG_TAG
    && k < |doc[Root].children|
    && doc[doc[Root].children[k]].tag == DEFS_TAG
    && (forall j :: 0 <= j < k ==> doc[doc[Root].children[j]].tag != DEFS_TAG)
  }

  /** The query yields the first `defs` child of the root first. */
  lemma RootDefsFirst(doc: seq<Element>, k: nat)
    requires WellFormed(doc) && FirstDefsChild(doc, k)
    ensures RootDefs(doc) != [] && RootDefs(doc)[0] == doc[Root].children[k]
  {
    ChildrenWithTagFirst(doc, doc[Root].children, DEFS_TAG, k);
  }

  /**
    `get_defs()`.  With nothing cached it looks the container up and caches the first
    one.  When there is none it calls `getroot()`: an Element has no such method, so
    that fails before anything changes; an ElementTree's root gets a new container as
    its first child and, since lxml's `insert` returns None, None is cached and returned.
   */
  function GetDefsStep(s: State): (o: (Result<Option<nat>>, State))
    requires s.Valid()
    ensures o.1.Valid() && Extends(s, o.1)
    ensures o.1.tidCache == s.tidCache && o.1.draws == s.draws && o.1.isTree == s.isTree
    ensures s.defs.Some? ==> o == (Ok(s.defs), s)
    ensures o.0.Ok? && o.0.value.Some? ==> o.1 == s.(defs := o.0.value) && (s.defs.None? ==> o.0.value.value in RootDefs(s.doc))
    ensures o.0.Err? <==> s.defs.None? && RootDefs(s.doc) == [] && !s.isTree
    ensures o.0.Err? ==> o == (Err(AttributeError("getroot")), s)
    ensures o.0 == Ok(None) <==> s.defs.None? && RootDefs(s.doc) == [] && s.isTree
    ensures o.0 == Ok(None) ==> o.1 == s.(doc := InsertFirst(s.doc, Root, DEFS_TAG))
  {
    if s.defs.Some? then (Ok(s.defs), s)
    else
      var found := RootDefs(s.doc);
      if found != [] then
        assert found[0] in found;
        (Ok(Some(found[0])), s.(defs := Some(found[0])))
      else if !s.isTree then (Err(AttributeError("getroot")), s)
      else
        InsertFirstWellFormed(s.doc, Root, DEFS_TAG);
        (Ok(None), s.(doc := InsertFirst(s.doc, Root, DEFS_TAG)))
  }

  /** With nothing cached, `get_defs` caches and returns the root's first `defs` child. */
  lemma GetDefsFindsFirst(s: State, k: nat)
    requires s.Valid() && s.defs.None? && FirstDefsChild(s.doc, k)
    ensures GetDefsStep(s) == (Ok(Some(s.doc[Root].children[k])), s.(defs := Some(s.doc[Root].children[k])))
  {
    RootDefsFirst(s.doc, k);
  }

  // ---------------------------------------------------------------- replace_rect_with_etree

  /** What survives of the placeholder's attributes: exactly its `x` and `y`. */
  function KeepAllowed(attrs: map<QName, string>): (r: map<QName, string>)
    ensures forall k :: k in r <==> k in attrs && k in ALLOWED_ATTRS
    ensures forall k :: k in r ==> r[k] == attrs[k]
  {
    var r := if X in attrs then map[X := attrs[X]] else map[];
    if Y in attrs then r[Y := attrs[Y]] else r
  }

  /** What `replace_rect_with_etree` returns and leaves behind; `tree` is the caller's fragment as the call left it. */
  datatype Replaced = Replaced(result: Result<()>, state: State, tree: seq<Element>)

  /**
    The placeholder turned into a `use` of the fragment `docId`: it is retagged,
    given the id `newId`, stripped to its allowed attributes (which removes that
    id again) and pointed at the fragment.
   */
  function UseOf(placeholder: Element, newId: string, docId: string): (r: Element)
    ensures r.tag == USE_TAG && r.parent == placeholder.parent && r.children == placeholder.children
    ensures r.attrs == KeepAllowed(placeholder.attrs)[HREF_ATTR := "#" + docId]
    ensures ID !in r.attrs && HasAttr(r, HREF_ATTR, "#" + docId)
  {
    var attrs := placeholder.attrs[ID := newId];
    assert KeepAllowed(attrs) == KeepAllowed(placeholder.attrs);
    placeholder.(tag := USE_TAG, attrs := KeepAllowed(attrs)[HREF_ATTR := "#" + docId])
  }

  /**
    `doc'` is `doc` after fragment `frag` was appended to the container `d` and
    the placeholder `e` became a `use` of it under the id `docId`.
   */
  ghost predicate Substituted(doc: seq<Element>, doc': seq<Element>, frag: seq<Element>, e: nat, d: nat, docId: string) {
    var base := |doc|;
    && |frag| > 0 && e < base && d < base
    && |doc'| == base + |frag|
    // the fragment is copied in as it stands, and its root is now the last child of the container
    && (forall j :: 0 <= j < |frag| ==> doc'[base + j].tag == frag[j].tag && doc'[base + j].attrs == frag[j].attrs)
    && (forall j :: 0 <= j < |frag| ==> doc'[base + j].children == ShiftAll(frag[j].children, base))
    && (forall j :: 0 < j < |frag| ==>
         doc'[base + j].parent == (if frag[j].parent.Some? then Some(frag[j].parent.value + base) else None))
    && doc'[base].parent == Some(d)
    && doc'[d].children == doc[d].children + [base]
    // the placeholder is a `use` of the fragment that keeps only its position
    && doc'[e].tag == USE_TAG
    && doc'[e].attrs == KeepAllowed(doc[e].attrs)[HREF_ATTR := "#" + docId]
    // no element of the document moves, and no other element changes
    && (forall i :: 0 <= i < base ==> doc'[i].parent == doc[i].parent)
    && (forall i :: 0 <= i < base && i != d ==> doc'[i].children == doc[i].children)
    && (forall i :: 0 <= i < base && i != e ==> doc'[i].tag == doc[i].tag && doc'[i].attrs == doc[i].attrs)
  }

  /** Appending the fragment to the container and rewriting the placeholder. */
  function Substitute(doc: seq<Element>, e: nat, d: nat, frag: seq<Element>, newId: string, docId: string): (u: seq<Element>)
    requires WellFormed(doc) && WellFormed(frag) && e < |doc| && d < |doc|
    ensures WellFormed(u) && |u| == |doc| + |frag|
  {
    AppendTreeWellFormed(doc, d, frag);
    var appended := AppendTree(doc, d, frag);
    var u := appended[e := UseOf(appended[e], newId, docId)];
    SameShapeWellFormed(appended, u);
    u
  }

  /** What the substitution does to the document. */
  lemma SubstituteEffect(doc: seq<Element>, e: nat, d: nat, frag: seq<Element>, newId: string, docId: string)
    requires WellFormed(doc) && WellFormed(frag) && e < |doc| && d < |doc|
    ensures Substituted(doc, Substitute(doc, e, d, frag, newId, docId), frag, e, d, docId)
  {
  }

  /** The fragment's root with attribute `name` set; the rest of the fragment is untouched. */
  predicate RootSet(tree: seq<Element>, tree': seq<Element>, attrs: map<QName, string>) {
    && |tree'| == |tree| > 0
    && tree'[Root] == tree[Root].(attrs := attrs)
    && (forall j :: 0 < j < |tree| ==> tree'[j] == tree[j])
  }

  /** The container `get_defs` yields, whatever the cache and the id counter hold. */
  lemma GetDefsIgnoresCache(s: State, s': State)
    requires s.Valid() && s'.Valid() && s.doc == s'.doc && s.defs == s'.defs && s.isTree == s'.isTree
    ensures GetDefsStep(s').0 == GetDefsStep(s).0
    ensures GetDefsStep(s').1 == GetDefsStep(s).1.(tidCache := s'.tidCache, draws := s'.draws)
  {
  }

  /** `replace_rect_with_etree(tid, tree)`, with `Draw(uuid, n)` the n-th id drawn from `uuid4`. */
  function ReplaceStep(s: State, tid: string, tree: seq<Element>, uuid: nat -> string): (o: Replaced)
    requires s.Valid() && WellFormed(tree)
    ensures o.state.Valid() && Extends(s, o.state)
    ensures o.result.Ok? ==> o.state.draws == s.draws + 2
  {
    var found := GetByIdStep(s, tid);
    if found.result.Err? then Replaced(Err(found.result.error), found.state, tree)
    else
      var prep := PrepareStep(found.state, found.result.value, tree, uuid);
      if prep.result.Err? then prep
      else AttachStep(prep.state, found.result.value, prep.tree, Draw(uuid, found.state.draws), uuid)
  }

  /**
    `replace_rect_with_etree` between the lookup of the placeholder `elem` and the
    append: the fragment gets a fresh id, then the placeholder's height and its width
    (a missing one is a KeyError).
   */
  function PrepareStep(s: State, elem: nat, tree: seq<Element>, uuid: nat -> string): (o: Replaced)
    requires s.Valid() && WellFormed(tree) && elem < |s.doc|
    ensures o.state == s.(draws := s.draws + 1) && WellFormed(o.tree)
    ensures o.result.Ok? || o.result.error.KeyError?
  {
    var sized := Sized(SetAttr(tree, Root, ID, Draw(uuid, s.draws)), s.doc[elem].attrs);
    Replaced(sized.0, s.(draws := s.draws + 1), sized.1)
  }

  /**
    `tree.set('height', ...)` then `tree.set('width', ...)` with the placeholder's
    attributes `size`: the height goes on first, so a missing width leaves the
    fragment with the height already set.
   */
  function Sized(tree: seq<Element>, size: map<QName, string>): (o: (Result<()>, seq<Element>))
    requires WellFormed(tree)
    ensures WellFormed(o.1) && SameShape(tree, o.1)
    ensures o.0 == Err(KeyError("height")) <==> HEIGHT !in size
    ensures o.0 == Err(KeyError("width")) <==> HEIGHT in size && WIDTH !in size
    ensures o.0.Ok? <==> HEIGHT in size && WIDTH in size
    ensures HEIGHT in size ==> HEIGHT in o.1[Root].attrs && o.1[Root].attrs[HEIGHT] == size[HEIGHT]
    ensures o.0 == Err(KeyError("height")) ==> o.1 == tree
    ensures o.0 == Err(KeyError("width")) ==> o.1[Root].attrs == tree[Root].attrs[HEIGHT := size[HEIGHT]]
    ensures o.0.Ok? ==> o.1[Root].attrs == tree[Root].attrs[HEIGHT := size[HEIGHT]][WIDTH := size[WIDTH]]
    ensures o.1[Root].tag == tree[Root].tag && forall i :: 0 < i < |tree| ==> o.1[i] == tree[i]
  {
    if HEIGHT !in size then (Err(KeyError("height")), tree)
    else
      var tall := SetAttr(tree, Root, HEIGHT, size[HEIGHT]);
      if WIDTH !in size then (Err(KeyError("width")), tall)
      else (Ok(()), SetAttr(tall, Root, WIDTH, size[WIDTH]))
  }

  /** Appending the prepared fragment `frag` (id `docId`) and rewriting the placeholder `elem`. */
  function AttachStep(s: State, elem: nat, frag: seq<Element>, docId: string, uuid: nat -> string): (o: Replaced)
    requires s.Valid() && WellFormed(frag) && elem < |s.doc|
    ensures o.state.Valid() && Extends(s, o.state) && o.state.tidCache == s.tidCache && o.tree == frag
    ensures o.result.Ok? || o.result == Err(AttributeError("getroot")) || o.result == Err(AttributeError("append"))
    ensures o.result.Ok? ==> o.state.draws == s.draws + 1
  {
    var defs := GetDefsStep(s);
    var s2 := defs.1;
    if defs.0.Err? then Replaced(Err(defs.0.error), s2, frag)
    else if defs.0.value.None? then Replaced(Err(AttributeError("append")), s2, frag)
    else
      var doc' := Substitute(s2.doc, elem, defs.0.value.value, frag, Draw(uuid, s2.draws), docId);
      Replaced(Ok(()), s2.(doc := doc', draws := s2.draws + 1), frag)
  }

  /** A failed lookup changes nothing; a successful one hands the placeholder on. */
  lemma ReplaceStepEffect(s: State, tid: string, tree: seq<Element>, uuid: nat -> string)
    requires s.Valid() && WellFormed(tree)
    ensures var o := ReplaceStep(s, tid, tree, uuid);
      && (o.result == Err(LookupError(tid)) <==> GetByIdStep(s, tid).result.Err?)
      && (GetByIdStep(s, tid).result.Err? ==> o.state == s && o.tree == tree)
      && (GetByIdStep(s, tid).result.Ok? ==>
            var found := GetByIdStep(s, tid);
            var prep := PrepareStep(found.state, found.result.value, tree, uuid);
            && (prep.result.Err? ==> o == prep)
            && (prep.result.Ok? ==> o == AttachStep(prep.state, found.result.value, prep.tree, Draw(uuid, found.state.draws), uuid)))
  {
  }

  /** The fragment has its fresh id even if the call then fails, and then exactly those sizes set before the failure. */
  lemma PrepareStepTree(s: State, elem: nat, tree: seq<Element>, uuid: nat -> string)
    requires s.Valid() && WellFormed(tree) && elem < |s.doc|
    ensures var o := PrepareStep(s, elem, tree, uuid);
      && |o.tree| == |tree| && RootSet(tree, o.tree, o.tree[Root].attrs) && HasAttr(o.tree[Root], ID, Draw(uuid, s.draws))
      && (o.result == Err(KeyError("height")) ==> o.tree == SetAttr(tree, Root, ID, Draw(uuid, s.draws)))
      && (o.result == Err(KeyError("width")) ==>
            o.tree[Root].attrs == tree[Root].attrs[ID := Draw(uuid, s.draws)][HEIGHT := s.doc[elem].attrs[HEIGHT]])
  {
  }

  /** A placeholder without a size fails with a KeyError, and the document untouched. */
  lemma PrepareStepMissingSize(s: State, elem: nat, tree: seq<Element>, uuid: nat -> string)
    requires s.Valid() && WellFormed(tree) && elem < |s.doc|
    ensures var o := PrepareStep(s, elem, tree, uuid);
      && (o.result == Err(KeyError("height")) <==> HEIGHT !in s.doc[elem].attrs)
      && (o.result == Err(KeyError("width")) <==> HEIGHT in s.doc[elem].attrs && WIDTH !in s.doc[elem].attrs)
      && (o.result.Err? <==> HEIGHT !in s.doc[elem].attrs || WIDTH !in s.doc[elem].attrs)
  {
  }

  /** Past the size, the fragment carries the placeholder's height and width and all is up to the container. */
  lemma PrepareStepSized(s: State, elem: nat, tree: seq<Element>, uuid: nat -> string)
    requires s.Valid() && WellFormed(tree) && elem < |s.doc|
    requires HEIGHT in s.doc[elem].attrs && WIDTH in s.doc[elem].attrs
    ensures var o := PrepareStep(s, elem, tree, uuid);
      && o.result.Ok?
      && o.tree[Root].attrs == tree[Root].attrs[ID := Draw(uuid, s.draws)][HEIGHT := s.doc[elem].attrs[HEIGHT]][WIDTH := s.doc[elem].attrs[WIDTH]]
  {
  }

  /**
    Without a defs container the call fails: on an Element at `getroot`, with nothing
    changed; on an ElementTree at the append, after a container was inserted.  With a
    container the fragment goes in.
   */
  lemma AttachStepEffect(s: State, elem: nat, frag: seq<Element>, docId: string, uuid: nat -> string)
    requires s.Valid() && WellFormed(frag) && elem < |s.doc|
    ensures var o := AttachStep(s, elem, frag, docId, uuid);
      var defs := GetDefsStep(s);
      && (o.result.Err? <==> !(defs.0.Ok? && defs.0.value.Some?))
      && (defs.0.Err? ==> o.result == Err(AttributeError("getroot")) && o.state == s)
      && (defs.0 == Ok(None) ==> o.result == Err(AttributeError("append")) && o.state == defs.1)
      && (o.result.Ok? ==>
            && o.state.defs == defs.0.value
            && o.state.draws == s.draws + 1
            && Substituted(s.doc, o.state.doc, frag, elem, defs.0.value.value, docId))
  {
    var defs := GetDefsStep(s);
    if defs.0.Ok? && defs.0.value.Some? {
      SubstituteEffect(defs.1.doc, elem, defs.0.value.value, frag, Draw(uuid, defs.1.draws), docId);
    }
  }

  /**
    Every element of `doc` is still in `doc'` under the same parent, and is either
    exactly as it was or a `use` of some fragment: nothing is removed or moved.
   */
  ghost predicate Preserved(doc: seq<Element>, doc': seq<Element>) {
    && |doc| <= |doc'|
    && (forall i :: 0 <= i < |doc| ==> doc'[i].parent == doc[i].parent)
    && (forall i :: 0 <= i < |doc| ==>
          (doc'[i].tag == doc[i].tag && doc'[i].attrs == doc[i].attrs) || (doc'[i].tag == USE_TAG && HREF_ATTR in doc'[i].attrs))
  }

  lemma PreservedTrans(a: seq<Element>, b: seq<Element>, c: seq<Element>)
    requires Preserved(a, b) && Preserved(b, c)
    ensures Preserved(a, c)
  {
  }

  /** A substitution that succeeds removes and moves nothing: it only adds the fragment and rewrites the placeholder. */
  lemma ReplaceStepPreserves(s: State, tid: string, tree: seq<Element>, uuid: nat -> string)
    requires s.Valid() && WellFormed(tree)
    requires ReplaceStep(s, tid, tree, uuid).result.Ok?
    ensures Preserved(s.doc, ReplaceStep(s, tid, tree, uuid).state.doc)
  {
    ReplaceStepEffect(s, tid, tree, uuid);
    var found := GetByIdStep(s, tid);
    var e := found.result.value;
    var prep := PrepareStep(found.state, e, tree, uuid);
    var o := ReplaceStep(s, tid, tree, uuid);
    AttachStepEffect(prep.state, e, prep.tree, Draw(uuid, found.state.draws), uuid);
    var defs := GetDefsStep(prep.state).0.value.value;
    SubstitutedPreserved(s.doc, o.state.doc, prep.tree, e, defs, Draw(uuid, found.state.draws));
  }

  lemma SubstitutedPreserved(doc: seq<Element>, doc': seq<Element>, frag: seq<Element>, e: nat, d: nat, docId: string)
    requires Substituted(doc, doc', frag, e, d, docId)
    ensures Preserved(doc, doc')
  {
  }

  /** `replace_rect_with_svg_string` / `replace_rect_with_svg_bytes`: parse the markup, then substitute. */
  function ReplaceSvgStep(s: State, tid: string, svg: Parse, uuid: nat -> string): (o: Outcome<()>)
    requires s.Valid() && (svg.Parsed? ==> WellFormed(svg.tree))
    ensures o.state.Valid() && Extends(s, o.state)
    ensures svg.Malformed? ==> o == Outcome(Err(ParseError), s)
    ensures svg.Parsed? ==> o.result == ReplaceStep(s, tid, svg.tree, uuid).result && o.state == ReplaceStep(s, tid, svg.tree, uuid).state
  {
    if svg.Malformed? then Outcome(Err(ParseError), s)
    else
      var r := ReplaceStep(s, tid, svg.tree, uuid);
      Outcome(r.result, r.state)
  }

  // ---------------------------------------------------------------- expunge_layout_elements

  predicate IsLayout(e: Element) {
    HasAttr(e, LABEL_ATTR, LAYOUT)
  }

  // The query `//*[@inkscape:label='layout']`.
  function LayoutElements(doc: seq<Element>): (r: seq<nat>)
    ensures forall i: nat :: i in r <==> i < |doc| && Attached(doc, i) && IsLayout(doc[i])
    ensures forall a, b :: 0 <= a < b < |r| ==> r[a] < r[b]
  {
    Select(doc, LABEL_ATTR, LAYOUT)
  }

  function LayoutSet(doc: seq<Element>): set<nat> {
    set e | e in LayoutElements(doc)
  }

  /** `layout` is what the layout query finds in the well-formed document `doc`. */
  ghost predicate LayoutOf(doc: seq<Element>, layout: seq<nat>) {
    WellFormed(doc) && layout == LayoutElements(doc)
  }

  /** The first `i` hits of the layout query, as a set. */
  function LayoutPrefix(layout: seq<nat>, i: nat): set<nat> {
    set k | 0 <= k < i && k < |layout| :: layout[k]
  }

  /**
    Hits come in increasing index order and the root is index 0, so the root, when
    it is a hit, comes first; and it is the only hit without a parent.
   */
  lemma LayoutHitOrder(doc: seq<Element>, layout: seq<nat>, i: nat)
    requires LayoutOf(doc, layout) && i < |layout|
    ensures layout[i] < |doc|
    ensures Root in layout ==> layout[0] == Root
    ensures doc[layout[i]].parent.None? ==> layout[i] == Root && Root in layout
  {
    assert layout[i] in layout;
  }

  /**
    One round of the removal loop: the hit still hangs from its original parent, and
    removing it from there extends the removal of the hits before it.
   */
  lemma ExpungeNext(doc: seq<Element>, layout: seq<nat>, i: nat)
    requires LayoutOf(doc, layout) && i < |layout| && layout[i] < |doc| && doc[layout[i]].parent.Some?
    ensures RemoveAll(doc, LayoutPrefix(layout, i))[layout[i]].parent == doc[layout[i]].parent
    ensures doc[layout[i]].parent.value < layout[i]
    ensures RemoveAll(doc, LayoutPrefix(layout, i + 1))
         == Remove(RemoveAll(doc, LayoutPrefix(layout, i)), doc[layout[i]].parent.value, layout[i])
  {
    assert layout[i] !in LayoutPrefix(layout, i);
    assert LayoutPrefix(layout, i + 1) == LayoutPrefix(layout, i) + {layout[i]};
    RemoveAllStep(doc, LayoutPrefix(layout, i), doc[layout[i]].parent.value, layout[i]);
  }

  /** No hit has been taken before the loop, and all of them after it. */
  lemma LayoutPrefixEnds(doc: seq<Element>, layout: seq<nat>)
    requires LayoutOf(doc, layout)
    ensures Root in layout ==> 0 < |layout| && layout[0] == Root
    ensures RemoveAll(doc, LayoutPrefix(layout, 0)) == doc
    ensures LayoutPrefix(layout, |layout|) == LayoutSet(doc)
  {
    assert LayoutPrefix(layout, 0) == {};
    RemoveAllOutside(doc, {});
    forall x ensures x in LayoutPrefix(layout, |layout|) <==> x in LayoutSet(doc) {
      if x in LayoutSet(doc) {
        var k :| 0 <= k < |layout| && layout[k] == x;
      }
    }
  }

  /**
    `expunge_layout_elements()`: every element of the document labelled `layout` is
    removed from its parent.  The root has no parent to be removed from, and being
    index 0 it is the first hit, so the call fails before anything is removed.
   */
  function ExpungeStep(s: State): (o: Outcome<()>)
    requires s.Valid()
    ensures o.state.Valid() && Extends(s, o.state)
    ensures o.state.tidCache == s.tidCache && o.state.defs == s.defs && o.state.draws == s.draws
    ensures o.result.Err? <==> IsLayout(s.doc[Root])
    ensures o.result.Err? ==> o == Outcome(Err(AttributeError("remove")), s)
    ensures o.result.Ok? ==> o.state.doc == RemoveAll(s.doc, LayoutSet(s.doc))
  {
    if Root in LayoutElements(s.doc) then Outcome(Err(AttributeError("remove")), s)
    else
      RemoveAllWellFormed(s.doc, LayoutSet(s.doc));
      Outcome(Ok(()), s.(doc := RemoveAll(s.doc, LayoutSet(s.doc))))
  }

  // ---------------------------------------------------------------- render_svg_string

  predicate ParsesWellFormed(replacements: seq<(string, Parse)>) {
    forall k :: 0 <= k < |replacements| && replacements[k].1.Parsed? ==> WellFormed(replacements[k].1.tree)
  }

  /** The replacement loop from entry `from` on: one substitution after another, in order, stopping at the first error. */
  function ApplyAll(s: State, replacements: seq<(string, Parse)>, from: nat, uuid: nat -> string): (o: Outcome<()>)
    requires s.Valid() && ParsesWellFormed(replacements) && from <= |replacements|
    ensures o.state.Valid() && Extends(s, o.state)
    ensures o.result.Ok? ==> o.state.draws == s.draws + 2 * (|replacements| - from)
    ensures o.result.Ok? ==> Preserved(s.doc, o.state.doc)
    decreases |replacements| - from
  {
    if from == |replacements| then Outcome(Ok(()), s)
    else
      var first := ReplaceSvgStep(s, replacements[from].0, replacements[from].1, uuid);
      if first.result.Err? then first
      else
        var rest := ApplyAll(first.state, replacements, from + 1, uuid);
        ReplaceStepPreserves(s, replacements[from].0, replacements[from].1.tree, uuid);
        if rest.result.Ok? then PreservedTrans(s.doc, first.state.doc, rest.state.doc); rest else rest
  }

  /**
    `render_svg_string(src, replacements, clean_layout_elements)`: load, substitute
    in the mapping's order, prune layout elements if asked, and hand the tree to the
    serializer.
   */
  function Render(src: Source, replacements: seq<(string, Parse)>, cleanLayoutElements: bool, uuid: nat -> string): (r: Result<seq<Element>>)
    requires (src.parsed.Parsed? ==> WellFormed(src.parsed.tree)) && ParsesWellFormed(replacements)
    ensures r.Ok? ==> WellFormed(r.value)
    ensures src.parsed.Malformed? ==> r == Err(ParseError)
  {
    if src.parsed.Malformed? then Err(ParseError)
    else
      var applied := ApplyAll(Initial(src.parsed.tree, src.File?), replacements, 0, uuid);
      if applied.result.Err? then Err(applied.result.error)
      else if !cleanLayoutElements then Ok(applied.state.doc)
      else
        var cleaned := ExpungeStep(applied.state);
        if cleaned.result.Err? then Err(cleaned.result.error) else Ok(cleaned.state.doc)
  }

  // ---------------------------------------------------------------- the Template class

  class Template {
    var doc: seq<Element>
    var tidCache: map<string, nat>
    var defs: Option<nat>
    /** How many ids this template has drawn; the n-th one is `Draw(uuid, n)`. */
    var draws: nat
    /** The id supply standing for `str(uuid4())`. */
    const uuid: nat -> string
    /** Whether `_doc` is an ElementTree rather than an Element. */
    const isTree: bool

    function Snapshot(): State
      reads this
    {
      State(doc, tidCache, defs, draws, isTree)
    }

    predicate Valid()
      reads this
    {
      Snapshot().Valid()
    }

    constructor(doc: seq<Element>, isTree: bool, uuid: nat -> string)
      requires WellFormed(doc)
      ensures Valid() && Snapshot() == Initial(doc, isTree) && this.uuid == uuid
    {
      this.isTree := isTree;
      this.doc := doc;
      this.tidCache := map[];
      this.defs := None;
      this.draws := 0;
      this.uuid := uuid;
    }

    method GetById(tid: string) returns (r: Result<nat>)
      requires Valid()
      modifies this`tidCache
      ensures Valid()
      ensures Outcome(r, Snapshot()) == GetByIdStep(old(Snapshot()), tid)
    {
      if tid !in tidCache {
        var matches := Select(doc, ID, tid);
        if |matches| == 1 {
          tidCache := tidCache[tid := matches[0]];
        } else {
          return Err(LookupError(tid));
        }
      }
      return Ok(tidCache[tid]);
    }

    method GetDefs() returns (r: Result<Option<nat>>)
      requires Valid()
      modifies this`doc, this`defs
      ensures Valid()
      ensures (r, Snapshot()) == GetDefsStep(old(Snapshot()))
    {
      if defs.None? {
        var found := RootDefs(doc);
        if found != [] {
          assert found[0] in found;
          defs := Some(found[0]);
        } else if !isTree {
          return Err(AttributeError("getroot"));
        } else {
          InsertFirstWellFormed(doc, Root, DEFS_TAG);
          doc := InsertFirst(doc, Root, DEFS_TAG);
          // the value of `insert(...)` is None, and that is what gets cached
          defs := None;
        }
      }
      return Ok(defs);
    }

    /** `str(uuid4())`. */
    method NextUuid() returns (id: string)
      modifies this`draws
      ensures id == Draw(uuid, old(Snapshot()).draws) && Snapshot() == old(Snapshot()).(draws := old(Snapshot()).draws + 1)
    {
      id := Draw(uuid, draws);
      draws := draws + 1;
    }

    method ReplaceRectWithEtree(tid: string, tree: seq<Element>) returns (r: Result<()>, tree': seq<Element>)
      requires Valid() && WellFormed(tree)
      modifies this
      ensures Valid()
      ensures Replaced(r, Snapshot(), tree') == ReplaceStep(old(Snapshot()), tid, tree, uuid)
    {
      var found := GetById(tid);
      if found.Err? {
        return Err(found.error), tree;
      }
      var docId;
      r, tree', docId := PrepareFragment(found.value, tree);
      if r.Err? {
        return;
      }
      r := AttachFragment(found.value, tree', docId);
    }

    /**
      `replace_rect_with_etree` once the placeholder `elem` is found: the fragment gets a
      fresh id `docId`, then the placeholder's height and its width.
     */
    method PrepareFragment(elem: nat, tree: seq<Element>) returns (r: Result<()>, tree': seq<Element>, docId: string)
      requires Valid() && WellFormed(tree) && elem < |doc|
      modifies this`draws
      ensures Replaced(r, Snapshot(), tree') == PrepareStep(old(Snapshot()), elem, tree, uuid)
      ensures docId == Draw(uuid, old(draws))
    {
      var size := doc[elem].attrs;
      docId := NextUuid();
      var sized := Sized(SetAttr(tree, Root, ID, docId), size);
      r, tree' := sized.0, sized.1;
    }

    /** The tail of `replace_rect_with_etree`: `get_defs().append(tree)`, then the placeholder rewrite. */
    method AttachFragment(elem: nat, frag: seq<Element>, docId: string) returns (r: Result<()>)
      requires Valid() && WellFormed(frag) && elem < |doc|
      modifies this
      ensures Replaced(r, Snapshot(), frag) == AttachStep(old(Snapshot()), elem, frag, docId, uuid)
    {
      var container := GetDefs();
      if container.Err? {
        return Err(container.error);
      }
      if container.value.None? {
        return Err(AttributeError("append"));
      }
      InsertFragment(elem, container.value.value, frag, docId);
      r := Ok(());
    }

    /** The fragment goes in as the last child of the container `d`, and the placeholder `elem` refers to it. */
    method InsertFragment(elem: nat, d: nat, frag: seq<Element>, docId: string)
      requires Valid() && WellFormed(frag) && elem < |doc| && d < |doc|
      modifies this`doc, this`draws
      ensures Snapshot() == old(Snapshot()).(doc := Substitute(old(doc), elem, d, frag, Draw(uuid, old(draws)), docId), draws := old(draws) + 1)
    {
      doc := AppendTree(doc, d, frag);
      RewritePlaceholder(elem, docId);
    }

    /**
      The placeholder `elem` becomes a `use` of the fragment `docId`: retagged, given
      a fresh id, stripped to its allowed attributes and pointed at the fragment.
     */
    method RewritePlaceholder(elem: nat, docId: string)
      requires elem < |doc|
      modifies this`doc, this`draws
      ensures doc == old(doc)[elem := UseOf(old(doc)[elem], Draw(uuid, old(draws)), docId)]
      ensures draws == old(draws) + 1
    {
      ghost var before := doc;
      doc := SetTag(doc, elem, USE_TAG);
      var newId := NextUuid();
      doc := SetAttr(doc, elem, ID, newId);
      KeepAllowedAttrs(elem);
      doc := SetAttr(doc, elem, HREF_ATTR, "#" + docId);
      assert doc[elem] == UseOf(before[elem], newId, docId);
      assert doc == before[elem := UseOf(before[elem], newId, docId)];
    }

    /** The allow-list loop: every attribute of element `elem` other than `x` and `y` is deleted. */
    method KeepAllowedAttrs(elem: nat)
      requires elem < |doc|
      modifies this`doc
      ensures doc == old(doc)[elem := old(doc)[elem].(attrs := KeepAllowed(old(doc)[elem].attrs))]
    {
      ghost var attrs := doc[elem].attrs;
      var keys := doc[elem].attrs.Keys;
      assert (map k | k in attrs && (k in ALLOWED_ATTRS || k in keys) :: attrs[k]) == attrs;
      while keys != {}
        invariant keys <= attrs.Keys
        invariant |doc| == |old(doc)|
        invariant forall j :: 0 <= j < |doc| && j != elem ==> doc[j] == old(doc)[j]
        invariant doc[elem] == old(doc)[elem].(attrs := map k | k in attrs && (k in ALLOWED_ATTRS || k in keys) :: attrs[k])
        decreases keys
      {
        var k :| k in keys;
        ghost var kept := map a | a in attrs && (a in ALLOWED_ATTRS || a in keys - {k}) :: attrs[a];
        if k !in ALLOWED_ATTRS {
          doc := DelAttr(doc, elem, k);
          assert doc[elem].attrs == kept;
        } else {
          assert doc[elem].attrs == kept;
        }
        keys := keys - {k};
      }
      assert doc[elem].attrs == KeepAllowed(attrs);
      assert doc == old(doc)[elem := old(doc)[elem].(attrs := KeepAllowed(old(doc)[elem].attrs))];
    }

    method ReplaceRectWithSvg(tid: string, svg: Parse) returns (r: Result<()>)
      requires Valid() && (svg.Parsed? ==> WellFormed(svg.tree))
      modifies this
      ensures Valid()
      ensures Outcome(r, Snapshot()) == ReplaceSvgStep(old(Snapshot()), tid, svg, uuid)
    {
      if svg.Malformed? {
        return Err(ParseError);
      }
      var tree;
      r, tree := ReplaceRectWithEtree(tid, svg.tree);
    }

    method ExpungeLayoutElements() returns (r: Result<()>)
      requires Valid()
      modifies this`doc
      ensures Valid()
      ensures Outcome(r, Snapshot()) == ExpungeStep(old(Snapshot()))
    {
      var layout := LayoutElements(doc);
      if |layout| > 0 && doc[layout[0]].parent.None? {
        // The first hit is then the root, index 0, which has no parent to remove it from.
        LayoutHitOrder(doc, layout, 0);
        return Err(AttributeError("remove"));
      }
      // So the root is no hit: as one it would be the first, and it has no parent.
      LayoutPrefixEnds(doc, layout);
      RemoveFromParents(layout);
      RemoveAllWellFormed(old(doc), LayoutSet(old(doc)));
      r := Ok(());
    }

    /** The removal loop of `expunge_layout_elements`: each hit, in increasing index order, is removed from its parent. */
    method RemoveFromParents(layout: seq<nat>)
      requires LayoutOf(doc, layout) && Root !in layout
      modifies this`doc
      ensures doc == RemoveAll(old(doc), LayoutSet(old(doc)))
    {
      ghost var original := doc;
      LayoutPrefixEnds(original, layout);
      var i: nat := 0;
      while i < |layout|
        invariant i <= |layout|
        invariant doc == RemoveAll(original, LayoutPrefix(layout, i))
      {
        var e := layout[i];
        LayoutHitOrder(original, layout, i);
        ExpungeNext(original, layout, i);
        doc := Remove(doc, doc[e].parent.value, e);
        i := i + 1;
      }
    }

    /** The loop of `render_svg_string`: each replacement in turn, stopping at the first failure. */
    method ReplaceAll(replacements: seq<(string, Parse)>) returns (r: Result<()>)
      requires Valid() && ParsesWellFormed(replacements)
      modifies this
      ensures Outcome(r, Snapshot()) == ApplyAll(old(Snapshot()), replacements, 0, uuid)
    {
      for i := 0 to |replacements|
        invariant Valid()
        invariant ApplyAll(Snapshot(), replacements, i, uuid) == ApplyAll(old(Snapshot()), replacements, 0, uuid)
      {
        var (tid, svg) := replacements[i];
        r := ReplaceRectWithSvg(tid, svg);
        if r.Err? {
          return;
        }
      }
      r := Ok(());
    }

    static method RenderSvgString(src: Source, replacements: seq<(string, Parse)>, cleanLayoutElements: bool, uuid: nat -> string)
      returns (r: Result<seq<Element>>)
      requires (src.parsed.Parsed? ==> WellFormed(src.parsed.tree)) && ParsesWellFormed(replacements)
      ensures r == Render(src, replacements, cleanLayoutElements, uuid)
    {
      if src.parsed.Malformed? {
        return Err(ParseError);
      }
      var tpl := new Template(src.parsed.tree, src.File?, uuid);
      var res := tpl.ReplaceAll(replacements);
      if res.Err? {
        return Err(res.error);
      }
      if cleanLayoutElements {
        res := tpl.ExpungeLayoutElements();
        if res.Err? {
          return Err(res.error);
        }
      }
      return Ok(tpl.doc);
    }
  }
}
