/**
  What a caller of `Template` can rely on, stated over the step functions of
  `Svglue`: the effects of one successful substitution on the fragment, the
  placeholder and the container; the lookup cache going stale; the defs
  container found again once inserted; what pruning removes and keeps; and how
  the batch driver strings the steps together.
 */
module SvglueProperties {
  import opened Xml
  import opened Svglue

  // ---------------------------------------------------------------- get_by_id

  /**
    Once `get_by_id(tid)` has succeeded, every later lookup of `tid` on the same
    template yields the same element and changes nothing, whatever happened to the
    document in between.
   */
  lemma LookupSticks(s: State, s': State, tid: string)
    requires s.Valid() && s'.Valid() && GetByIdStep(s, tid).result.Ok?
    requires Extends(GetByIdStep(s, tid).state, s')
    ensures GetByIdStep(s', tid) == Outcome(Ok(GetByIdStep(s, tid).result.value), s')
  {
  }

  /** In particular a whole batch of substitutions keeps the lookups made before it. */
  lemma LookupSticksAcrossBatch(s: State, tid: string, replacements: seq<(string, Parse)>, uuid: nat -> string)
    requires s.Valid() && ParsesWellFormed(replacements) && GetByIdStep(s, tid).result.Ok?
    ensures var later := ApplyAll(GetByIdStep(s, tid).state, replacements, 0, uuid).state;
      GetByIdStep(later, tid) == Outcome(Ok(GetByIdStep(s, tid).result.value), later)
  {
  }

  // ---------------------------------------------------------------- one substitution

  /**
    A substitution that succeeds found its placeholder, found both sizes on it and
    found a container; it drew two ids, the first of which names the fragment.
   */
  lemma ReplaceOk(s: State, tid: string, tree: seq<Element>, uuid: nat -> string)
    requires s.Valid() && WellFormed(tree)
    requires ReplaceStep(s, tid, tree, uuid).result.Ok?
    ensures var o := ReplaceStep(s, tid, tree, uuid);
      var found := GetByIdStep(s, tid);
      && found.result.Ok? && found.result.value < |s.doc|
      && HEIGHT in s.doc[found.result.value].attrs && WIDTH in s.doc[found.result.value].attrs
      && GetDefsStep(s).0.Ok? && GetDefsStep(s).0.value.Some?
      && Substituted(s.doc, o.state.doc, o.tree, found.result.value, GetDefsStep(s).0.value.value, Draw(uuid, s.draws))
      && |o.tree| == |tree|
      && RootSet(tree, o.tree, tree[Root].attrs[ID := Draw(uuid, s.draws)]
                                 [HEIGHT := s.doc[found.result.value].attrs[HEIGHT]]
                                 [WIDTH := s.doc[found.result.value].attrs[WIDTH]])
      && o.state.defs == GetDefsStep(s).0.value
      && o.state.draws == s.draws + 2
      && o.state.tidCache == found.state.tidCache
  {
    var found := GetByIdStep(s, tid);
    ReplaceStepEffect(s, tid, tree, uuid);
    var fs := found.state;
    var e := found.result.value;
    PrepareStepMissingSize(fs, e, tree, uuid);
    PrepareStepTree(fs, e, tree, uuid);
    PrepareStepSized(fs, e, tree, uuid);
    var prep := PrepareStep(fs, e, tree, uuid);
    AttachStepEffect(prep.state, e, prep.tree, Draw(uuid, fs.draws), uuid);
    GetDefsIgnoresCache(s, prep.state);
  }

  /**
    The fragment: its root carries the fresh id and the placeholder's original
    height and width, and it becomes the last child of the container, whose earlier
    children stay as they were.
   */
  lemma ReplaceFragment(s: State, tid: string, tree: seq<Element>, uuid: nat -> string)
    requires s.Valid() && WellFormed(tree)
    requires ReplaceStep(s, tid, tree, uuid).result.Ok?
    ensures var o := ReplaceStep(s, tid, tree, uuid);
      var e := GetByIdStep(s, tid).result.value;
      && FragmentAppended(s.doc, o.state.doc, o.tree, GetDefsStep(s).0.value.value)
      && o.tree[Root].tag == tree[Root].tag
      && HasAttr(o.tree[Root], ID, Draw(uuid, s.draws))
      && HasAttr(o.tree[Root], HEIGHT, s.doc[e].attrs[HEIGHT])
      && HasAttr(o.tree[Root], WIDTH, s.doc[e].attrs[WIDTH])
  {
    ReplaceOk(s, tid, tree, uuid);
    var o := ReplaceStep(s, tid, tree, uuid);
    var e := GetByIdStep(s, tid).result.value;
    SizedAttrs(tree[Root].attrs, Draw(uuid, s.draws), s.doc[e].attrs[HEIGHT], s.doc[e].attrs[WIDTH]);
    SubstitutedFragment(s.doc, o.state.doc, o.tree, GetByIdStep(s, tid).result.value, GetDefsStep(s).0.value.value, Draw(uuid, s.draws));
  }

  /** The id, the height and the width set in turn on the fragment's root are all three there. */
  lemma SizedAttrs(attrs: map<QName, string>, docId: string, height: string, width: string)
    ensures var sized := attrs[ID := docId][HEIGHT := height][WIDTH := width];
      sized[ID] == docId && sized[HEIGHT] == height && sized[WIDTH] == width
  {
    assert ID.local[0] != HEIGHT.local[0] && ID.local[0] != WIDTH.local[0] && HEIGHT.local[0] != WIDTH.local[0];
  }

  /**
    `frag` was copied whole into `doc'` after the elements of `doc`: every element with
    its tag, attributes, (renumbered) children and parent, its root now the last child of `d`.
   */
  ghost predicate FragmentAppended(doc: seq<Element>, doc': seq<Element>, frag: seq<Element>, d: nat) {
    var base := |doc|;
    && |frag| > 0 && d < base && |doc'| == base + |frag|
    && (forall j :: 0 <= j < |frag| ==> doc'[base + j].tag == frag[j].tag && doc'[base + j].attrs == frag[j].attrs)
    && (forall j :: 0 <= j < |frag| ==> doc'[base + j].children == ShiftAll(frag[j].children, base))
    && (forall j :: 0 < j < |frag| ==>
         doc'[base + j].parent == (if frag[j].parent.Some? then Some(frag[j].parent.value + base) else None))
    && doc'[base].parent == Some(d)
    && doc'[d].children == doc[d].children + [base]
  }

  lemma SubstitutedFragment(doc: seq<Element>, doc': seq<Element>, frag: seq<Element>, e: nat, d: nat, docId: string)
    requires Substituted(doc, doc', frag, e, d, docId)
    ensures FragmentAppended(doc, doc', frag, d)
  {
    assert doc'[|doc| + 0].attrs == frag[0].attrs;
  }

  /**
    The placeholder: it keeps its parent and its place among its siblings, becomes a
    `use`, and its attributes are exactly its own `x` and `y` plus a reference to the
    fragment; the id it was given along the way is gone again.
   */
  lemma ReplacePlaceholder(s: State, tid: string, tree: seq<Element>, uuid: nat -> string)
    requires s.Valid() && WellFormed(tree)
    requires ReplaceStep(s, tid, tree, uuid).result.Ok?
    ensures var o := ReplaceStep(s, tid, tree, uuid);
      PlaceholderReplaced(s.doc, o.state.doc, GetByIdStep(s, tid).result.value, Draw(uuid, s.draws))
  {
    ReplaceOk(s, tid, tree, uuid);
    var o := ReplaceStep(s, tid, tree, uuid);
    SubstitutedPlaceholder(s.doc, o.state.doc, o.tree, GetByIdStep(s, tid).result.value, GetDefsStep(s).0.value.value, Draw(uuid, s.draws));
  }

  /** Element `e` of `doc` is, in `doc'`, a `use` of `docId` in the same place, with only `x`, `y` and the reference. */
  ghost predicate PlaceholderReplaced(doc: seq<Element>, doc': seq<Element>, e: nat, docId: string) {
    && e < |doc| <= |doc'|
    && doc'[e].tag == USE_TAG
    && doc'[e].parent == doc[e].parent
    && (doc[e].parent.Some? ==> doc[e].parent.value < e && doc[doc[e].parent.value].children <= doc'[doc[e].parent.value].children)
    && (forall k :: k in doc'[e].attrs <==> k == HREF_ATTR || (k in ALLOWED_ATTRS && k in doc[e].attrs))
    && (forall k :: k in ALLOWED_ATTRS && k in doc[e].attrs ==> doc'[e].attrs[k] == doc[e].attrs[k])
    && HasAttr(doc'[e], HREF_ATTR, "#" + docId)
    && ID !in doc'[e].attrs && HEIGHT !in doc'[e].attrs && WIDTH !in doc'[e].attrs
  }

  lemma SubstitutedPlaceholder(doc: seq<Element>, doc': seq<Element>, frag: seq<Element>, e: nat, d: nat, docId: string)
    requires WellFormed(doc) && Substituted(doc, doc', frag, e, d, docId)
    ensures PlaceholderReplaced(doc, doc', e, docId)
  {
    if doc[e].parent.Some? {
      var p := doc[e].parent.value;
      assert doc[p].children <= doc'[p].children by {
        if p == d {
          assert doc'[p].children == doc[p].children + [|doc|];
        } else {
          assert doc'[p].children == doc[p].children;
        }
      }
    }
  }

  /**
    The cache goes stale: after a substitution the placeholder no longer has the
    id it was looked up by, yet looking that id up again still yields it, without
    searching the document.
   */
  lemma StaleLookupAfterReplace(s: State, tid: string, tree: seq<Element>, uuid: nat -> string)
    requires s.Valid() && WellFormed(tree)
    requires ReplaceStep(s, tid, tree, uuid).result.Ok?
    ensures var o := ReplaceStep(s, tid, tree, uuid);
      var e := GetByIdStep(s, tid).result.value;
      && !Selected(o.state.doc, ID, tid, e)
      && GetByIdStep(o.state, tid) == Outcome(Ok(e), o.state)
  {
    ReplacePlaceholder(s, tid, tree, uuid);
    ReplaceOk(s, tid, tree, uuid);
  }

  /**
    Substituting the same id twice: the second call gets the placeholder back from
    the cache, but it is a `use` now and has no height, so it fails with a KeyError,
    after drawing a third id and leaving the document as the first call left it.
   */
  lemma ReplaceSameIdTwice(s: State, tid: string, tree: seq<Element>, tree2: seq<Element>, uuid: nat -> string)
    requires s.Valid() && WellFormed(tree) && WellFormed(tree2)
    requires ReplaceStep(s, tid, tree, uuid).result.Ok?
    ensures var o := ReplaceStep(s, tid, tree, uuid);
      var o2 := ReplaceStep(o.state, tid, tree2, uuid);
      && o2.result == Err(KeyError("height"))
      && o2.state == o.state.(draws := o.state.draws + 1)
  {
    var o := ReplaceStep(s, tid, tree, uuid);
    var e := GetByIdStep(s, tid).result.value;
    StaleLookupAfterReplace(s, tid, tree, uuid);
    ReplacePlaceholder(s, tid, tree, uuid);
    ReplaceStepEffect(o.state, tid, tree2, uuid);
    PrepareStepMissingSize(o.state, e, tree2, uuid);
  }

  /** A failed substitution names the step that failed: the lookup, a size, or the container. */
  lemma ReplaceFails(s: State, tid: string, tree: seq<Element>, uuid: nat -> string)
    requires s.Valid() && WellFormed(tree)
    ensures var o := ReplaceStep(s, tid, tree, uuid);
      var found := GetByIdStep(s, tid);
      && (o.result == Err(LookupError(tid)) <==> found.result.Err?)
      && (found.result.Ok? ==>
            && (o.result == Err(KeyError("height")) <==> HEIGHT !in s.doc[found.result.value].attrs)
            && (o.result == Err(KeyError("width")) <==>
                  HEIGHT in s.doc[found.result.value].attrs && WIDTH !in s.doc[found.result.value].attrs)
            && (HEIGHT in s.doc[found.result.value].attrs && WIDTH in s.doc[found.result.value].attrs ==>
                  && (o.result == Err(AttributeError("getroot")) <==> GetDefsStep(s).0.Err?)
                  && (o.result == Err(AttributeError("append")) <==> GetDefsStep(s).0 == Ok(None))))
  {
    var found := GetByIdStep(s, tid);
    ReplaceStepEffect(s, tid, tree, uuid);
    if found.result.Ok? {
      var fs := found.state;
      var e := found.result.value;
      PrepareStepMissingSize(fs, e, tree, uuid);
      if HEIGHT in fs.doc[e].attrs && WIDTH in fs.doc[e].attrs {
        var prep := PrepareStep(fs, e, tree, uuid);
        AttachStepEffect(prep.state, e, prep.tree, Draw(uuid, fs.draws), uuid);
        GetDefsIgnoresCache(s, prep.state);
      }
    }
  }

  // ---------------------------------------------------------------- get_defs

  /**
    When `get_defs` had to insert a container (and cached None), the next call
    searches again and, under an `svg:svg` root, finds the inserted one first.
   */
  lemma GetDefsAfterInsert(s: State)
    requires s.Valid() && GetDefsStep(s).0 == Ok(None) && s.doc[Root].tag == SVG_TAG
    ensures var again := GetDefsStep(GetDefsStep(s).1);
      again.0 == Ok(Some(|s.doc|)) && again.1.doc == GetDefsStep(s).1.doc
  {
    var inserted := GetDefsStep(s).1;
    var cs := inserted.doc[Root].children;
    assert cs[0] == |s.doc|;
    assert inserted.doc[cs[0]].tag == DEFS_TAG;
    assert RootDefs(inserted.doc)[0] == |s.doc|;
  }

  /**
    Under a root that is not `svg:svg` the container is never found: on an ElementTree
    every call inserts another one, on an Element every call fails.
   */
  lemma GetDefsNeverFoundOutsideSvg(s: State)
    requires s.Valid() && s.defs.None? && s.doc[Root].tag != SVG_TAG
    ensures !s.isTree ==> GetDefsStep(s) == (Err(AttributeError("getroot")), s)
    ensures s.isTree ==> GetDefsStep(s).0 == Ok(None)
    ensures s.isTree ==> |GetDefsStep(s).1.doc| == |s.doc| + 1 && GetDefsStep(s).1.defs.None?
  {
  }

  // ---------------------------------------------------------------- expunge_layout_elements

  /** No element of the document is labelled as a layout guide. */
  predicate LayoutFree(doc: seq<Element>) {
    forall i :: 0 <= i < |doc| && Attached(doc, i) ==> !IsLayout(doc[i])
  }

  /**
    After pruning, an element is in the document exactly when it was and no element
    on its path to the root (itself included) was a layout guide.
   */
  lemma ExpungeKeepsExactlyUnmarked(s: State, i: nat)
    requires s.Valid() && ExpungeStep(s).result.Ok?
    ensures Attached(ExpungeStep(s).state.doc, i) <==> AttachedAvoiding(s.doc, LayoutSet(s.doc), i)
    ensures AttachedAvoiding(s.doc, LayoutSet(s.doc), i) ==> Attached(s.doc, i)
  {
    assert Root !in LayoutSet(s.doc);
    RemoveAllAttached(s.doc, LayoutSet(s.doc), i);
    if AttachedAvoiding(s.doc, LayoutSet(s.doc), i) {
      AttachedAvoidingAttached(s.doc, LayoutSet(s.doc), i);
    }
  }

  /** After a successful pruning no layout guide is left in the document. */
  lemma ExpungeRemovesLayout(s: State)
    requires s.Valid() && ExpungeStep(s).result.Ok?
    ensures LayoutFree(ExpungeStep(s).state.doc)
  {
    var u := ExpungeStep(s).state.doc;
    forall i | 0 <= i < |u| && Attached(u, i) ensures !IsLayout(u[i]) {
      ExpungeKeepsExactlyUnmarked(s, i);
      assert i !in LayoutSet(s.doc);
    }
  }

  /** Pruning keeps the order of the children that stay, and touches no tag or attribute. */
  lemma ExpungeKeepsOrder(s: State, i: nat, a: seq<nat>, b: seq<nat>)
    requires s.Valid() && ExpungeStep(s).result.Ok? && i < |s.doc| && s.doc[i].children == a + b
    ensures ExpungeStep(s).state.doc[i].children == FilterOut(a, LayoutSet(s.doc)) + FilterOut(b, LayoutSet(s.doc))
    ensures ExpungeStep(s).state.doc[i].tag == s.doc[i].tag && ExpungeStep(s).state.doc[i].attrs == s.doc[i].attrs
  {
    FilterOutConcat(a, b, LayoutSet(s.doc));
  }

  /** A document in which the layout query finds nothing is left as it is. */
  lemma ExpungeWithoutLayoutIsNoop(s: State)
    requires s.Valid() && LayoutFree(s.doc)
    ensures ExpungeStep(s) == Outcome(Ok(()), s)
  {
    assert LayoutSet(s.doc) == {};
    RemoveAllOutside(s.doc, {});
  }

  /** Pruning twice is pruning once. */
  lemma ExpungeIdempotent(s: State)
    requires s.Valid() && ExpungeStep(s).result.Ok?
    ensures ExpungeStep(ExpungeStep(s).state) == Outcome(Ok(()), ExpungeStep(s).state)
  {
    var s' := ExpungeStep(s).state;
    ExpungeRemovesLayout(s);
    ExpungeWithoutLayoutIsNoop(s');
  }

  // ---------------------------------------------------------------- render_svg_string

  /**
    Without pruning, substitution removes nothing: every element attached in the
    template is still attached under the same parent in the rendering, and is either
    unchanged or has become a `use`; a layout guide stays one unless it served as a
    placeholder.
   */
  lemma RenderWithoutCleaningKeeps(src: Source, replacements: seq<(string, Parse)>, uuid: nat -> string, i: nat)
    requires src.parsed.Parsed? && WellFormed(src.parsed.tree) && ParsesWellFormed(replacements)
    requires Render(src, replacements, false, uuid).Ok?
    requires Attached(src.parsed.tree, i)
    ensures var t, out := src.parsed.tree, Render(src, replacements, false, uuid).value;
      && Attached(out, i) && out[i].parent == t[i].parent
      && ((out[i].tag == t[i].tag && out[i].attrs == t[i].attrs) || (out[i].tag == USE_TAG && HREF_ATTR in out[i].attrs))
      && (IsLayout(t[i]) ==> IsLayout(out[i]) || out[i].tag == USE_TAG)
  {
    var t := src.parsed.tree;
    var applied := ApplyAll(Initial(t, src.File?), replacements, 0, uuid);
    AttachedKept(t, applied.state.doc, i);
  }

  /** With pruning, a rendered document holds no layout guide; and it is the substituted document, pruned. */
  lemma RenderCleanHasNoLayout(src: Source, replacements: seq<(string, Parse)>, uuid: nat -> string)
    requires src.parsed.Parsed? && WellFormed(src.parsed.tree) && ParsesWellFormed(replacements)
    requires Render(src, replacements, true, uuid).Ok?
    ensures LayoutFree(Render(src, replacements, true, uuid).value)
    ensures var applied := ApplyAll(Initial(src.parsed.tree, src.File?), replacements, 0, uuid);
      Render(src, replacements, true, uuid).value == RemoveAll(applied.state.doc, LayoutSet(applied.state.doc))
  {
    var applied := ApplyAll(Initial(src.parsed.tree, src.File?), replacements, 0, uuid);
    ExpungeRemovesLayout(applied.state);
  }

  /**
    The first substitution into a document with no `defs` under its root fails with an
    AttributeError once its placeholder is found and sized, so the whole rendering
    fails: a document loaded from markup has no `getroot`; one loaded from a file gets
    a container inserted, but `get_defs` returns None to append to.
   */
  lemma RenderWithoutDefsFails(src: Source, replacements: seq<(string, Parse)>, clean: bool, e: nat, uuid: nat -> string)
    requires src.parsed.Parsed? && WellFormed(src.parsed.tree) && ParsesWellFormed(replacements)
    requires RootDefs(src.parsed.tree) == []
    requires |replacements| > 0 && replacements[0].1.Parsed?
    requires UniquelySelected(src.parsed.tree, ID, replacements[0].0, e)
    requires HEIGHT in src.parsed.tree[e].attrs && WIDTH in src.parsed.tree[e].attrs
    ensures src.Markup? ==> Render(src, replacements, clean, uuid) == Err(AttributeError("getroot"))
    ensures src.File? ==> Render(src, replacements, clean, uuid) == Err(AttributeError("append"))
  {
    var s := Initial(src.parsed.tree, src.File?);
    var (tid, svg) := replacements[0];
    var found := GetByIdStep(s, tid);
    assert found.result.Ok?;
    assert found.result.value == e;
    ReplaceFails(s, tid, svg.tree, uuid);
  }
}
