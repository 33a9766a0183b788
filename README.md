# svglue's template engine, modelled in Dafny

svgcomposer fills SVG templates. A template is an SVG document in which some
elements are placeholders, each named by its `id`. `Template` in
`svgcomposer/svglue.py` holds the parsed document and changes it in place, in
these steps:

- `get_by_id` finds the single element with a given id and caches it.
- `get_defs` finds the root's `svg:defs` container, or inserts one.
- `replace_rect_with_etree` does the substitution:
  - it gives a parsed fragment a fresh id and the placeholder's height and width;
  - it appends the fragment to the container;
  - it turns the placeholder into an `svg:use` that refers to the fragment.
- `expunge_layout_elements` removes every element labelled `inkscape:label="layout"` from its parent.
- `render_svg_string` runs all of this for a batch of replacements.

The model has three modules.

- `Xml` (`xml.dfy`) is the part of lxml the engine uses.
  - A document is an arena: a sequence of elements addressed by index. The root is at index 0.
  - Each element has a namespaced tag, an attribute map, a parent index and an ordered child list.
  - `WellFormed` states that parent links and child lists agree, and that every parent comes before its children.
  - Queries: the `//*[@name='value']` query (`Select`) and one `child::tag` step.
  - Edits: `set`, attribute deletion, retagging, `insert(0, …)`, `append` of a separate tree, and `remove`.
- `Svglue` (`svglue.dfy`) holds the object and its operations.
  - `State` is the object's content: the document, whether it is an Element or an ElementTree, the id cache, the cached container, and how many ids have been drawn.
  - Each operation is a function from a `State` to its result and the next `State`. These functions are the specification.
  - The class `Template` has the same fields. Its methods do the work step by step, with the same loops and the same order of edits as the Python (with one exception under "## Left out": the pruning loop). Each method is proved to agree with its function: `ensures Outcome(r, Snapshot()) == GetByIdStep(old(Snapshot()), tid)` and so on.
- `SvglueProperties` (`svglue_properties.dfy`) proves what a caller can rely on, stated over those functions.

The model keeps these behaviours of the code as written:

- `load` (lines 46-50) gives a template one of two kinds of document.
  - Non-empty inline markup `src` goes through `etree.fromstring`, which yields an Element.
  - Otherwise `file` goes through `etree.parse`, which yields an ElementTree.
  - The model records which kind it is (`Source`, and `isTree` in the state), because `get_defs` behaves differently on the two.
- `get_defs` without a `defs` child under an `svg:svg` root calls `getroot()` (line 94).
  - An Element has no `getroot`. A template loaded from markup therefore fails with `AttributeError` there, before anything changes.
  - An ElementTree gets a new container as the root's first child. The branch then stores and returns what lxml's `insert` returns, which is None.
  - So the first substitution into such a file-loaded document inserts a container and then fails to append to None (`AttributeError`).
  - Nothing was cached, so the next call searches again and finds the inserted container (`GetDefsAfterInsert`).
  - When the root is not `svg:svg`, the search never matches. Every call then fails (markup) or inserts another container and fails (file) (`GetDefsNeverFoundOutsideSvg`).
  - `svgcomposer/svg.py` always passes inline markup (lines 28-33), so with it every substitution into a document without `defs` fails at `getroot`.
- `get_by_id` raises the same `LookupError` for an id with no match and for an id with several matches.
- The new id the placeholder gets is deleted straight away. Line 125 sets it, and the allow-list loop that follows removes it.
- The lookup cache never checks again. A cached element is returned even after its id has gone (`StaleLookupAfterReplace`).
  - Substituting the same id a second time therefore reaches the old placeholder, which is now a `use`. That `use` has no `height`, so the second call fails with `KeyError` (`ReplaceSameIdTwice`).
- A placeholder without `height` or `width` aborts the call part-way.
  - The fragment already has its id, and the first uuid has been drawn.
  - A missing height is reported before a missing width.
- `expunge_layout_elements` removes from the parents recorded before the loop.
  - Removing an element takes its whole subtree out of the document, including unlabelled descendants (`ExpungeKeepsExactlyUnmarked`).
  - It searches the whole document, so fragments already appended under `defs` are pruned too.
  - If the root itself is labelled `layout`, it is the first hit. Its recorded parent is None, so the call fails with `AttributeError` before anything is removed.

## Model

| member | source | states |
|---|---|---|
| Xml.SelectBelow | svgcomposer/svglue.py:75 | among the first k elements, the hits are exactly the attached elements whose attribute has the value, in increasing index order |
| Xml.Select | svgcomposer/svglue.py:75 | `//*[@name='value']`: an index is a hit iff the element is in the document and has that attribute value; hits come in increasing index order, with the root first |
| Xml.SelectSingle | svgcomposer/svglue.py:75-81 | the query has exactly one hit iff exactly one element of the document matches, and then that element is the hit |
| Xml.ChildrenWithTag | svgcomposer/svglue.py:86-89 | a child step keeps exactly the listed children with that tag; a first child with the tag is the first result |
| Xml.ChildrenWithTagFirst | svgcomposer/svglue.py:91-92 | the first result is the earliest child with the tag, so `defs[0]` is the first `defs` child |
| Xml.FilterOut | svgcomposer/svglue.py:143 | a child list minus a set keeps exactly the children outside the set, and does not grow |
| Xml.FilterOutNoDup | svgcomposer/svglue.py:143 | removing children keeps a child list free of duplicates |
| Xml.FilterOutConcat | svgcomposer/svglue.py:142-143 | filtering distributes over concatenation, so the children that stay keep their relative order |
| Xml.FilterOutNothing | svgcomposer/svglue.py:142-143 | removing children none of which is in the list leaves the list as it is |
| Xml.FilterOutTwice | svgcomposer/svglue.py:142-143 | removing one set of children and then another equals removing their union |
| Xml.SetAttr | svgcomposer/svglue.py:111 | `set` changes one attribute of one element, and nothing else; a well-formed tree stays well-formed |
| Xml.DelAttr | svgcomposer/svglue.py:130 | `del attrib[k]` removes one attribute of one element, and nothing else |
| Xml.SetTag | svgcomposer/svglue.py:121 | retagging changes one element's tag, and nothing else |
| Xml.InsertFirst | svgcomposer/svglue.py:94-95 | `insert(0, Element(tag))` adds an attribute-less element as the parent's first child; every other element is unchanged |
| Xml.InsertFirstWellFormed | svgcomposer/svglue.py:94-95 | inserting an element keeps the tree well-formed |
| Xml.AppendTree | svgcomposer/svglue.py:117 | `append` of a separate tree copies each of its elements after the document's, with its tag, attributes, renumbered children and parent, and makes its root the parent's last child; no other element changes |
| Xml.AppendTreeWellFormed | svgcomposer/svglue.py:117 | appending a well-formed tree keeps the document well-formed |
| Xml.Remove | svgcomposer/svglue.py:143 | `parent.remove(c)` takes `c` out of its parent's child list and detaches it; nothing else of `p` or `c` and no other element changes |
| Xml.RemoveAll | svgcomposer/svglue.py:141-143 | removing a set of elements detaches each of them and filters each child list; tags and attributes stay as they were |
| Xml.RemoveAllWellFormed | svgcomposer/svglue.py:141-143 | removing elements keeps the tree well-formed |
| Xml.RemoveAllOutside | svgcomposer/svglue.py:142-143 | removing no element of the document changes nothing |
| Xml.RemoveAllStepAt | svgcomposer/svglue.py:142-143 | element by element: one more `remove` from the original parent gives the removal of one more element |
| Xml.RemoveAllStep | svgcomposer/svglue.py:142-143 | removing the hits one after another, each from its original parent, equals removing them all at once |
| Xml.RemoveAllAttached | svgcomposer/svglue.py:141-143 | after the removal, an element is in the document iff its path to the root avoids every removed element |
| Xml.AttachedAvoidingAttached | svgcomposer/svglue.py:141-143 | an element whose path avoids the removed ones was in the document before |
| Svglue.Initial | svgcomposer/svglue.py:68-71 | a new template holds the document, of the kind `load` made, with an empty cache, no container and no drawn id |
| Svglue.GetByIdStep | svgcomposer/svglue.py:73-82 | a cached id is returned unchanged; otherwise success iff exactly one element has the id, returning it and caching it; failure is a LookupError and changes nothing |
| Svglue.RootDefs | svgcomposer/svglue.py:86-89 | `/svg:svg/svg:defs` finds exactly the root's `defs` children when the root is `svg:svg`, and nothing otherwise |
| Svglue.GetDefsStep | svgcomposer/svglue.py:84-97 | a cached container is returned unchanged; else a `defs` child of an `svg:svg` root is found and cached; else an Element fails with AttributeError(`getroot`) and changes nothing, and an ElementTree gets a container inserted as the root's first child, with None returned and cached |
| Svglue.RootDefsFirst | svgcomposer/svglue.py:86-92 | the query's first result is the root's earliest `defs` child |
| Svglue.GetDefsFindsFirst | svgcomposer/svglue.py:84-92 | with nothing cached, `get_defs` returns and caches the root's earliest `defs` child and changes nothing else |
| Svglue.GetDefsIgnoresCache | svgcomposer/svglue.py:84-97 | the container found does not depend on the id cache or on the ids drawn |
| Svglue.KeepAllowed | svgcomposer/svglue.py:127-130 | exactly the `x` and `y` attributes survive, with their values |
| Svglue.UseOf | svgcomposer/svglue.py:121-132 | the placeholder becomes a `use` in the same place, with only its `x`/`y` and `href = "#" + doc_id`; the new id is gone |
| Svglue.Substitute | svgcomposer/svglue.py:117-132 | appending the fragment and rewriting the placeholder keeps the document well-formed and grows it by the fragment |
| Svglue.SubstituteEffect | svgcomposer/svglue.py:117-132 | the fragment is copied in whole, each element with its tag, attributes, renumbered children and parent, its root the container's new last child; the placeholder is the `use`; no element moves and no other element changes |
| Svglue.ReplaceStep | svgcomposer/svglue.py:105-134 | a substitution keeps the state valid, the kind of document, and the cache and container it found; success draws exactly two ids |
| Svglue.PrepareStep | svgcomposer/svglue.py:110-116 | between the lookup and the append the call draws exactly one id, changes nothing else of the state, and can fail only with a KeyError |
| Svglue.Sized | svgcomposer/svglue.py:115-116 | `tree.set` of height then width: KeyError("height") iff the height is missing, and the fragment comes back as it was; KeyError("width") iff only the width is, and the root has gained exactly the height; on success the root gains exactly both values; nothing but the root's attributes changes |
| Svglue.AttachStep | svgcomposer/svglue.py:117-134 | the append and rewrite fail only with AttributeError (`getroot` or `append`), leave the caller's fragment as prepared and, on success, draw one id |
| Svglue.ReplaceStepEffect | svgcomposer/svglue.py:107-117 | a failed lookup fails the call with LookupError and changes nothing; a found placeholder is prepared, and a prepared fragment goes on to the append |
| Svglue.PrepareStepTree | svgcomposer/svglue.py:110-116 | the caller's fragment has the fresh id on its root even when the call then fails, and only its root changes: after KeyError("height") it has gained only the id, after KeyError("width") exactly the id and the height |
| Svglue.PrepareStepMissingSize | svgcomposer/svglue.py:115-116 | KeyError("height") iff height is missing; KeyError("width") iff height is present and width is missing; the preparation fails iff either is missing |
| Svglue.PrepareStepSized | svgcomposer/svglue.py:110-116 | with both sizes present, the preparation succeeds and the fragment root gets the fresh id, the height and the width |
| Svglue.AttachStepEffect | svgcomposer/svglue.py:117-132 | the append fails with AttributeError(`getroot`) iff `get_defs` fails, with nothing changed, and with AttributeError(`append`) iff it yields None, after inserting a container; otherwise the document is substituted into the container found and one id is drawn |
| Svglue.ReplaceStepPreserves | svgcomposer/svglue.py:117-132 | a successful substitution removes and moves no element: every element keeps its parent and either keeps its tag and attributes or has become a `use` with a reference |
| Svglue.SubstitutedPreserved | svgcomposer/svglue.py:117-132 | a substituted document preserves every element of the original in that sense |
| Svglue.ReplaceSvgStep | svgcomposer/svglue.py:99-103 | malformed markup is a parse error that changes nothing; parsed markup behaves as `replace_rect_with_etree` on its tree |
| Svglue.LayoutElements | svgcomposer/svglue.py:137-140 | the hits are exactly the attached elements labelled `layout`, in increasing index order |
| Svglue.LayoutHitOrder | svgcomposer/svglue.py:137-143 | a labelled root is the first hit, and it is the only hit without a parent |
| Svglue.ExpungeNext | svgcomposer/svglue.py:141-143 | each hit still hangs from its recorded parent when its turn comes, and removing it extends the removal of the earlier hits |
| Svglue.LayoutPrefixEnds | svgcomposer/svglue.py:142-143 | before the loop nothing is removed, and after it every hit is |
| Svglue.ExpungeStep | svgcomposer/svglue.py:136-145 | fails with AttributeError iff the root is labelled layout, and then changes nothing; otherwise removes exactly the hits from their parents |
| Svglue.ApplyAll | svgcomposer/svglue.py:62-63 | substitutions run in the mapping's order, stopping at the first failure; cached lookups are kept; a batch that succeeds draws two ids per entry and removes or moves no element of the template |
| Svglue.Render | svgcomposer/svglue.py:53-66 | malformed source is a parse error; the result is a well-formed document |
| Svglue.Template.constructor | svgcomposer/svglue.py:68-71 | the fields are those of `Initial(doc, isTree)` |
| Svglue.Template.GetById | svgcomposer/svglue.py:73-82 | the result and the new fields are those of `GetByIdStep` |
| Svglue.Template.GetDefs | svgcomposer/svglue.py:84-97 | the result and the new fields are those of `GetDefsStep`, including the `getroot` failure on an Element |
| Svglue.Template.NextUuid | svgcomposer/svglue.py:110 | returns the next id of the supply and counts the draw |
| Svglue.Template.ReplaceRectWithEtree | svgcomposer/svglue.py:105-134 | the result, the new fields and the caller's fragment are those of `ReplaceStep` |
| Svglue.Template.PrepareFragment | svgcomposer/svglue.py:110-116 | the id and the two `set` calls do what `PrepareStep` says, including the partial effects of a KeyError, and return the drawn id |
| Svglue.Template.AttachFragment | svgcomposer/svglue.py:117-132 | the append and rewrite do what `AttachStep` says |
| Svglue.Template.InsertFragment | svgcomposer/svglue.py:117-132 | the append followed by the rewrite is `Substitute`, drawing one id |
| Svglue.Template.RewritePlaceholder | svgcomposer/svglue.py:121-132 | retag, new id, allow-list loop and `href` turn the placeholder into `UseOf` it |
| Svglue.Template.KeepAllowedAttrs | svgcomposer/svglue.py:127-130 | the deletion loop leaves the element's attributes as `KeepAllowed` of them, and changes no other element |
| Svglue.Template.ReplaceRectWithSvg | svgcomposer/svglue.py:99-103 | the result and the new fields are those of `ReplaceSvgStep` |
| Svglue.Template.ExpungeLayoutElements | svgcomposer/svglue.py:136-145 | the result and the new document are those of `ExpungeStep` |
| Svglue.Template.RemoveFromParents | svgcomposer/svglue.py:141-143 | removing the hits one by one from their parents yields `RemoveAll` of them |
| Svglue.Template.ReplaceAll | svgcomposer/svglue.py:62-63 | the loop over the replacements does what `ApplyAll` says |
| Svglue.Template.RenderSvgString | svgcomposer/svglue.py:53-66 | the rendered document or error is that of `Render` |
| SvglueProperties.LookupSticks | svgcomposer/svglue.py:74-82 | once a lookup succeeded, every later lookup of that id on the template yields the same element without a search, whatever the document became |
| SvglueProperties.LookupSticksAcrossBatch | svgcomposer/svglue.py:74-82 | a lookup made before a batch of substitutions still yields the same element after it |
| SvglueProperties.ReplaceOk | svgcomposer/svglue.py:105-134 | a substitution succeeds only if the lookup succeeded, both sizes were present and a container was found; the document is then substituted under the first drawn id |
| SvglueProperties.ReplaceFragment | svgcomposer/svglue.py:110-117 | the fragment root carries the fresh id and the placeholder's height and width, and is the container's last child after its unchanged earlier children |
| SvglueProperties.SubstitutedFragment | svgcomposer/svglue.py:117 | in a substituted document, the fragment root is the container's last child |
| SvglueProperties.ReplacePlaceholder | svgcomposer/svglue.py:121-132 | the placeholder keeps its parent and place among its siblings, becomes a `use`, and has exactly its own `x`/`y` plus `href = "#" + doc_id`, with no id, height or width |
| SvglueProperties.SubstitutedPlaceholder | svgcomposer/svglue.py:121-132 | in a substituted document the placeholder stays in the same place as a `use` with only `x`, `y` and the reference |
| SvglueProperties.StaleLookupAfterReplace | svgcomposer/svglue.py:74-82 | after a substitution the placeholder no longer has the id, yet looking the id up again still yields it |
| SvglueProperties.ReplaceSameIdTwice | svgcomposer/svglue.py:107-115 | a second substitution of the same id fails with KeyError("height"), drawing one id and changing nothing else |
| SvglueProperties.ReplaceFails | svgcomposer/svglue.py:105-117 | the error names the failing step: LookupError iff the lookup fails; KeyError on the first missing size; AttributeError(`getroot`) iff `get_defs` fails; AttributeError(`append`) iff it yields None |
| SvglueProperties.GetDefsAfterInsert | svgcomposer/svglue.py:84-97 | after `get_defs` inserted a container under an `svg:svg` root, the next call finds exactly that container without changing the document |
| SvglueProperties.GetDefsNeverFoundOutsideSvg | svgcomposer/svglue.py:86-96 | under a root that is not `svg:svg`, every uncached call fails at `getroot` on an Element, and on an ElementTree inserts one more container and returns None |
| SvglueProperties.ExpungeKeepsExactlyUnmarked | svgcomposer/svglue.py:136-145 | after pruning, an element is in the document iff it was and no element on its path to the root was labelled layout |
| SvglueProperties.ExpungeRemovesLayout | svgcomposer/svglue.py:136-145 | after pruning, no element left in the document is labelled layout |
| SvglueProperties.ExpungeKeepsOrder | svgcomposer/svglue.py:142-143 | each child list loses exactly its labelled children and keeps the rest in order; no tag or attribute changes |
| SvglueProperties.ExpungeWithoutLayoutIsNoop | svgcomposer/svglue.py:136-145 | when nothing in the document is labelled layout, pruning succeeds and changes nothing |
| SvglueProperties.ExpungeIdempotent | svgcomposer/svglue.py:136-145 | pruning a pruned document succeeds and changes nothing |
| SvglueProperties.RenderWithoutCleaningKeeps | svgcomposer/svglue.py:60-66 | without pruning, every element attached in the template is still attached under the same parent, and is unchanged or has become a `use`; a layout guide stays one unless it was a placeholder |
| SvglueProperties.RenderCleanHasNoLayout | svgcomposer/svglue.py:64-66 | with pruning, a successful result is the substituted document with the labelled elements removed, and holds no labelled element |
| SvglueProperties.RenderWithoutDefsFails | svgcomposer/svglue.py:53-66 | rendering into a template without `defs` fails as soon as the first placeholder is found and sized: with AttributeError(`getroot`) for markup, and AttributeError(`append`) for a file |

## Left out

- Parsing and serialising are not modelled.
  - `etree.fromstring`, `etree.parse` and `tostring` (lines 46-50, 103, 147-151) are lxml's.
  - A piece of markup arrives as `Parse`: either a well-formed tree or `Malformed`.
  - `replace_rect_with_svg_string`'s UTF-8 encoding step is therefore invisible.
  - `Render` returns the element tree that would be serialised.
  - Elements here carry only a tag, attributes, a parent and children. Text, tails, comments, processing instructions and namespace declarations are not in the arena, so the returned tree is not everything `tostring` would write.
- `load` (lines 46-50) is modelled only in the kind of document it yields. The caller picks `Markup` or `File` as its `Source`, saying which branch `if src:` takes. Neither argument being given (`etree.parse(None)`) is not modelled.
- An Element and an ElementTree over the same markup are the same arena here. They differ only in whether `getroot` exists, recorded by `isTree`.
- `replacements or {}` (line 60) is not modelled. A missing mapping is simply the empty sequence.
- The mapping's iteration order is the order of the sequence of pairs.
  - A dict has unique keys, but the sequence may name the same id twice. The model covers that more general case, and nothing proved assumes unique ids.
- `uuid4` is a supply `uuid: nat -> string` fixed per template, together with a count of draws.
  - Nothing requires the ids to be distinct or fresh, and none of the properties proved here needs it.
  - A drawn id that happens to equal a later placeholder's id is looked up like any other id, as in the code.
- XPath is modelled only in what it selects (`Select`, `ChildrenWithTag`).
  - The unescaped interpolation of `tid` into the query on line 75 is not modelled. The lookup is "every element whose id is `tid`".
- Xml.Select and Svglue.LayoutElements return their hits in increasing arena-index order, not lxml's document order.
  - The two differ once an element has been inserted or appended. After `InsertFirst`, for instance, the new container is the root's first child but has the largest index.
  - Only two facts about the order are used: the root, at index 0, comes first; and `get_by_id` asks for the single hit.
  - The pruning loop's outcome does not depend on the order of removal (`RemoveAllStep`).
- `append` in lxml moves the caller's element itself into the document. The caller's `tree` and the document then share it.
  - The model copies a separate fragment into the arena and hands the caller back its own value (`Replaced.tree`).
  - Later changes to the document, such as pruning inside the fragment, are therefore not seen in the caller's value.
  - An element that already belongs to a document, which `append` would move out of its old place, cannot be passed at all.
  - The documents `replace_rect_with_svg_bytes` parses are fresh and private to the call, so for them the two agree.
- In `expunge_layout_elements`, a labelled root is found up front, instead of failing in the first iteration of the removal loop. The two give the same result and state, because the root is the first hit.
- `Template.RemoveFromParents` does not build the `parent_map` of line 141. It reads each hit's current parent when its turn comes, and `ExpungeNext` proves that this is the parent the map would have recorded.
- `TemplateParseError`, `__str__`, the module aliases at lines 154-155, and the unused `b64encode` import are not modelled.
- `svgcomposer/svg.py` is not part of this model: rasterising, the disk cache, file reading and text interpolation. Nor is `svgcomposer/__init__.py`, which only re-exports.
- Exceptions are modelled as a `Result`. The state left behind by a failure is recorded, including a container inserted by a failed append and an id drawn before a KeyError.
- Svglue.Render: its own contract states only the parse error and well-formedness. The rest of what it promises is proved as lemmas in `SvglueProperties`.
