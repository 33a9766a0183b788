/**
  The part of lxml's element tree that the template engine relies on, as an
  arena: every element of a document lives at an index of a sequence, its
  parent and its children are indices into the same sequence, and the
  document's root element is at index 0.  Elements that have been removed
  from their parent stay in the arena, detached.

  Every parent has a smaller index than its children.  That holds for a
  freshly parsed document, and every edit below keeps it, because new
  elements are only ever added at the end of the arena.
 */
module Xml {

  datatype Option<T> = None | Some(value: T)

  /** A namespace-qualified name, written `{ns}local` by lxml; `ns` is empty for a plain name. */
  datatype QName = QName(ns: string, local: string)

  /** One element: its tag, its attributes, its parent (None for a root or a detached element) and its ordered children. */
  datatype Element = Element(tag: QName, attrs: map<QName, string>, parent: Option<nat>, children: seq<nat>)

  const Root: nat := 0

  predicate NoDup(s: seq<nat>) {
    forall a, b :: 0 <= a < b < |s| ==> s[a] != s[b]
  }

  /** The arena is a forest rooted at index 0 whose parent links and child lists agree. */
  predicate WellFormed(t: seq<Element>) {
    && |t| > 0
    && t[Root].parent == None
    && (forall i :: 0 <= i < |t| && t[i].parent.Some? ==>
          t[i].parent.value < i && i in t[t[i].parent.value].children)
    && (forall p, k :: 0 <= p < |t| && 0 <= k < |t[p].children| ==>
          t[p].children[k] < |t| && t[t[p].children[k]].parent == Some(p))
    && (forall p :: 0 <= p < |t| ==> NoDup(t[p].children))
  }

  lemma ChildHasParent(t: seq<Element>, p: nat, c: nat)
    requires WellFormed(t) && p < |t| && c in t[p].children
    ensures c < |t| && t[c].parent == Some(p) && p < c
  {
    var k :| 0 <= k < |t[p].children| && t[p].children[k] == c;
  }

  /** Element `i` belongs to the document: following parent links from it reaches the root. */
  predicate Attached(t: seq<Element>, i: nat)
    decreases i
  {
    i < |t| && (i == Root || (t[i].parent.Some? && t[i].parent.value < i && Attached(t, t[i].parent.value)))
  }

  /** Growing the arena without giving any existing element a new parent keeps every attached element attached. */
  lemma {:induction false} AttachedKept(t: seq<Element>, u: seq<Element>, i: nat)
    requires |t| <= |u| && forall j :: 0 <= j < |t| ==> u[j].parent == t[j].parent
    requires Attached(t, i)
    ensures Attached(u, i)
    decreases i
  {
    if i != Root {
      AttachedKept(t, u, t[i].parent.value);
    }
  }

  predicate HasAttr(e: Element, name: QName, value: string) {
    name in e.attrs && e.attrs[name] == value
  }

  // Element `i` is a match of the query `//*[@name='value']`.
  predicate Selected(t: seq<Element>, name: QName, value: string, i: nat) {
    i < |t| && Attached(t, i) && HasAttr(t[i], name, value)
  }

  // The matches of `//*[@name='value']` among the first `k` elements, in increasing index order.
  function SelectBelow(t: seq<Element>, name: QName, value: string, k: nat): (r: seq<nat>)
    requires k <= |t|
    ensures forall i: nat :: i in r <==> i < k && Selected(t, name, value, i)
    ensures forall a :: 0 <= a < |r| ==> r[a] < k
    ensures forall a, b :: 0 <= a < b < |r| ==> r[a] < r[b]
    decreases k
  {
    if k == 0 then []
    else
      var below := SelectBelow(t, name, value, k - 1);
      if Selected(t, name, value, k - 1) then below + [k - 1] else below
  }

  // The query `//*[@name='value']` over the whole document.
  function Select(t: seq<Element>, name: QName, value: string): (r: seq<nat>)
    ensures forall i: nat :: i in r <==> Selected(t, name, value, i)
    ensures forall a, b :: 0 <= a < b < |r| ==> r[a] < r[b]
  {
    SelectBelow(t, name, value, |t|)
  }

  // Exactly one element of the document matches `//*[@name='value']`.
  ghost predicate UniquelySelected(t: seq<Element>, name: QName, value: string, i: nat) {
    Selected(t, name, value, i) && forall j: nat :: Selected(t, name, value, j) ==> j == i
  }

  /** The query has exactly one match if and only if there is one element it selects and no other, and then that element is the match. */
  lemma SelectSingle(t: seq<Element>, name: QName, value: string)
    ensures |Select(t, name, value)| == 1 <==> exists i: nat :: UniquelySelected(t, name, value, i)
    ensures |Select(t, name, value)| == 1 ==> UniquelySelected(t, name, value, Select(t, name, value)[0])
  {
    var r := Select(t, name, value);
    if |r| == 1 {
      assert r[0] in r;
      forall j: nat | Selected(t, name, value, j) ensures j == r[0] {
        assert j in r;
      }
      assert UniquelySelected(t, name, value, r[0]);
    }
    if i: nat :| UniquelySelected(t, name, value, i) {
      assert i in r;
      forall a | 0 <= a < |r| ensures r[a] == i {
        assert r[a] in r;
      }
      FirstTwoIncreasing(r);
    }
  }

  lemma FirstTwoIncreasing(r: seq<nat>)
    requires forall a, b :: 0 <= a < b < |r| ==> r[a] < r[b]
    ensures |r| >= 2 ==> r[0] < r[1]
  {
  }

  /** The elements of `cs` tagged `tag`, in their order in `cs`: one step `child::tag` of a path query. */
  function ChildrenWithTag(t: seq<Element>, cs: seq<nat>, tag: QName): (r: seq<nat>)
    requires forall k :: 0 <= k < |cs| ==> cs[k] < |t|
    ensures forall c :: c in r <==> c in cs && c < |t| && t[c].tag == tag
    ensures cs != [] && t[cs[0]].tag == tag ==> r != [] && r[0] == cs[0]
  {
    if cs == [] then []
    else (if t[cs[0]].tag == tag then [cs[0]] else []) + ChildrenWithTag(t, cs[1..], tag)
  }

  /** The first match of `ChildrenWithTag` is the earliest element of `cs` with that tag. */
  lemma {:induction false} ChildrenWithTagFirst(t: seq<Element>, cs: seq<nat>, tag: QName, k: nat)
    requires forall k :: 0 <= k < |cs| ==> cs[k] < |t|
    requires k < |cs| && t[cs[k]].tag == tag
    requires forall j :: 0 <= j < k ==> t[cs[j]].tag != tag
    ensures ChildrenWithTag(t, cs, tag) != [] && ChildrenWithTag(t, cs, tag)[0] == cs[k]
  {
    if k > 0 {
      var rest := cs[1..];
      forall j | 0 <= j < k - 1 ensures t[rest[j]].tag != tag {
        assert rest[j] == cs[j + 1];
      }
      ChildrenWithTagFirst(t, rest, tag, k - 1);
    }
  }

  /** The elements of `cs` that are not in `s`, in their order in `cs`. */
  function FilterOut(cs: seq<nat>, s: set<nat>): (r: seq<nat>)
    ensures forall x :: x in r <==> x in cs && x !in s
    ensures |r| <= |cs|
  {
    if cs == [] then []
    else (if cs[0] in s then [] else [cs[0]]) + FilterOut(cs[1..], s)
  }

  lemma {:induction false} FilterOutNoDup(cs: seq<nat>, s: set<nat>)
    requires NoDup(cs)
    ensures NoDup(FilterOut(cs, s))
  {
    if cs != [] {
      var tail := cs[1..];
      assert NoDup(tail) by {
        forall a, b | 0 <= a < b < |tail| ensures tail[a] != tail[b] {
          assert tail[a] == cs[a + 1] && tail[b] == cs[b + 1];
        }
      }
      FilterOutNoDup(tail, s);
      assert cs[0] !in tail;
    }
  }

  /** Filtering distributes over concatenation, so it keeps the relative order of what it keeps. */
  lemma {:induction false} FilterOutConcat(a: seq<nat>, b: seq<nat>, s: set<nat>)
    ensures FilterOut(a + b, s) == FilterOut(a, s) + FilterOut(b, s)
  {
    if a != [] {
      assert (a + b)[1..] == a[1..] + b;
      FilterOutConcat(a[1..], b, s);
    } else {
      assert a + b == b;
    }
  }

  lemma {:induction false} FilterOutNothing(cs: seq<nat>, s: set<nat>)
    requires forall x :: x in cs ==> x !in s
    ensures FilterOut(cs, s) == cs
  {
    if cs != [] {
      FilterOutNothing(cs[1..], s);
    }
  }

  lemma {:induction false} FilterOutTwice(cs: seq<nat>, s: set<nat>, s': set<nat>)
    ensures FilterOut(FilterOut(cs, s), s') == FilterOut(cs, s + s')
  {
    if cs != [] {
      var head := if cs[0] in s then [] else [cs[0]];
      FilterOutConcat(head, FilterOut(cs[1..], s), s');
      FilterOutTwice(cs[1..], s, s');
    }
  }

  /** Two arenas with the same elements in the same places, up to tags and attributes. */
  predicate SameShape(t: seq<Element>, u: seq<Element>) {
    |t| == |u| && forall i :: 0 <= i < |t| ==> u[i].parent == t[i].parent && u[i].children == t[i].children
  }

  lemma SameShapeWellFormed(t: seq<Element>, u: seq<Element>)
    requires SameShape(t, u) && WellFormed(t)
    ensures WellFormed(u)
  {
    forall i | 0 <= i < |u| && u[i].parent.Some?
      ensures u[i].parent.value < i && i in u[u[i].parent.value].children
    {
      assert t[i].parent == u[i].parent;
      assert u[t[i].parent.value].children == t[t[i].parent.value].children;
    }
    forall p, k | 0 <= p < |u| && 0 <= k < |u[p].children|
      ensures u[p].children[k] < |u| && u[u[p].children[k]].parent == Some(p)
    {
      assert u[p].children == t[p].children;
    }
    forall p | 0 <= p < |u| ensures NoDup(u[p].children) {
      assert u[p].children == t[p].children;
    }
  }

  /** `t[i].set(name, value)`: only that element's attribute changes. */
  function SetAttr(t: seq<Element>, i: nat, name: QName, value: string): (u: seq<Element>)
    requires i < |t|
    ensures SameShape(t, u)
    ensures forall j :: 0 <= j < |t| && j != i ==> u[j] == t[j]
    ensures u[i].tag == t[i].tag && u[i].attrs == t[i].attrs[name := value]
    ensures WellFormed(t) ==> WellFormed(u)
  {
    var u := t[i := t[i].(attrs := t[i].attrs[name := value])];
    if WellFormed(t) then SameShapeWellFormed(t, u); u else u
  }

  /** `del t[i].attrib[name]`. */
  function DelAttr(t: seq<Element>, i: nat, name: QName): (u: seq<Element>)
    requires i < |t|
    ensures SameShape(t, u)
    ensures forall j :: 0 <= j < |t| && j != i ==> u[j] == t[j]
    ensures u[i].tag == t[i].tag && u[i].attrs == t[i].attrs - {name}
  {
    t[i := t[i].(attrs := t[i].attrs - {name})]
  }

  /** `t[i].tag = tag`. */
  function SetTag(t: seq<Element>, i: nat, tag: QName): (u: seq<Element>)
    requires i < |t|
    ensures SameShape(t, u)
    ensures forall j :: 0 <= j < |t| && j != i ==> u[j] == t[j]
    ensures u[i].tag == tag && u[i].attrs == t[i].attrs
  {
    t[i := t[i].(tag := tag)]
  }

  /** `t[p].insert(0, Element(tag))`: a new attribute-less element, placed at the end of the arena and made the first child of `p`. */
  function InsertFirst(t: seq<Element>, p: nat, tag: QName): (u: seq<Element>)
    requires p < |t|
    ensures |u| == |t| + 1
    ensures u[|t|] == Element(tag, map[], Some(p), [])
    ensures u[p].children == [|t|] + t[p].children
    ensures u[p].tag == t[p].tag && u[p].attrs == t[p].attrs && u[p].parent == t[p].parent
    ensures forall i :: 0 <= i < |t| && i != p ==> u[i] == t[i]
  {
    t[p := t[p].(children := [|t|] + t[p].children)] + [Element(tag, map[], Some(p), [])]
  }

  lemma InsertFirstWellFormed(t: seq<Element>, p: nat, tag: QName)
    requires WellFormed(t) && p < |t|
    ensures WellFormed(InsertFirst(t, p, tag))
  {
    InsertFirstParents(t, p, tag);
    InsertFirstChildren(t, p, tag);
    InsertFirstNoDup(t, p, tag);
  }

  lemma InsertFirstParents(t: seq<Element>, p: nat, tag: QName)
    requires WellFormed(t) && p < |t|
    ensures var u := InsertFirst(t, p, tag);
      forall i :: 0 <= i < |u| && u[i].parent.Some? ==> u[i].parent.value < i && i in u[u[i].parent.value].children
  {
    var u := InsertFirst(t, p, tag);
    var n := |t|;
    forall i | 0 <= i < |u| && u[i].parent.Some?
      ensures u[i].parent.value < i && i in u[u[i].parent.value].children
    {
      if i < n {
        var q := t[i].parent.value;
        assert i in t[q].children;
        assert q == p ==> u[q].children == [n] + t[q].children;
      }
    }
  }

  lemma InsertFirstChildren(t: seq<Element>, p: nat, tag: QName)
    requires WellFormed(t) && p < |t|
    ensures var u := InsertFirst(t, p, tag);
      forall q, k :: 0 <= q < |u| && 0 <= k < |u[q].children| ==> u[q].children[k] < |u| && u[u[q].children[k]].parent == Some(q)
  {
    var u := InsertFirst(t, p, tag);
    forall q, k | 0 <= q < |u| && 0 <= k < |u[q].children|
      ensures u[q].children[k] < |u| && u[u[q].children[k]].parent == Some(q)
    {
      if q == p && k > 0 {
        assert u[q].children[k] == t[q].children[k - 1];
      }
    }
  }

  lemma InsertFirstNoDup(t: seq<Element>, p: nat, tag: QName)
    requires WellFormed(t) && p < |t|
    ensures var u := InsertFirst(t, p, tag);
      forall q :: 0 <= q < |u| ==> NoDup(u[q].children)
  {
    var u := InsertFirst(t, p, tag);
    forall q | 0 <= q < |u| ensures NoDup(u[q].children) {
      if q == p {
        forall k | 0 <= k < |t[p].children| ensures t[p].children[k] < |t| {}
      }
    }
  }

  function ShiftAll(cs: seq<nat>, base: nat): (r: seq<nat>)
    ensures |r| == |cs|
    ensures forall k :: 0 <= k < |cs| ==> r[k] == cs[k] + base
  {
    seq(|cs|, k requires 0 <= k < |cs| => cs[k] + base)
  }

  /** Element `j` of a standalone tree `f` once `f` is placed at `base` in an arena under parent `p`. */
  function Shifted(f: seq<Element>, j: nat, base: nat, p: nat): Element
    requires j < |f|
  {
    var e := f[j];
    var parent := if j == 0 then Some(p) else if e.parent.Some? then Some(e.parent.value + base) else None;
    Element(e.tag, e.attrs, parent, ShiftAll(e.children, base))
  }

  /** `t[p].append(f)` for a standalone tree `f`: its elements are placed at the end of the arena and its root becomes the last child of `p`. */
  function AppendTree(t: seq<Element>, p: nat, f: seq<Element>): (u: seq<Element>)
    requires p < |t|
    ensures |u| == |t| + |f|
    ensures u[p] == t[p].(children := t[p].children + [|t|])
    ensures forall i :: 0 <= i < |t| && i != p ==> u[i] == t[i]
    ensures forall j :: 0 <= j < |f| ==> u[|t| + j].tag == f[j].tag && u[|t| + j].attrs == f[j].attrs
    ensures forall j :: 0 <= j < |f| ==> u[|t| + j].children == ShiftAll(f[j].children, |t|)
    ensures forall j :: 0 < j < |f| ==>
      u[|t| + j].parent == (if f[j].parent.Some? then Some(f[j].parent.value + |t|) else None)
    ensures |f| > 0 ==> u[|t|].parent == Some(p)
  {
    t[p := t[p].(children := t[p].children + [|t|])] + seq(|f|, j requires 0 <= j < |f| => Shifted(f, j, |t|, p))
  }

  lemma AppendTreeParentAt(t: seq<Element>, p: nat, f: seq<Element>, i: nat)
    requires WellFormed(t) && WellFormed(f) && p < |t|
    requires i < |t| + |f| && AppendTree(t, p, f)[i].parent.Some?
    ensures var u := AppendTree(t, p, f);
      u[i].parent.value < i && i in u[u[i].parent.value].children
  {
    var u := AppendTree(t, p, f);
    var base := |t|;
    if i < base {
      var q := t[i].parent.value;
      assert i in t[q].children;
      assert u[q].children == t[q].children || u[q].children == t[q].children + [base];
    } else if i == base {
      assert u[p].children[|t[p].children|] == base;
    } else {
      var j := i - base;
      assert u[i] == Shifted(f, j, base, p);
      var q := f[j].parent.value;
      assert j in f[q].children;
      var k :| 0 <= k < |f[q].children| && f[q].children[k] == j;
      assert u[q + base] == Shifted(f, q, base, p);
      assert u[q + base].children[k] == i;
    }
  }

  lemma AppendTreeParents(t: seq<Element>, p: nat, f: seq<Element>)
    requires WellFormed(t) && WellFormed(f) && p < |t|
    ensures var u := AppendTree(t, p, f);
      forall i :: 0 <= i < |u| && u[i].parent.Some? ==> u[i].parent.value < i && i in u[u[i].parent.value].children
  {
    var u := AppendTree(t, p, f);
    forall i | 0 <= i < |u| && u[i].parent.Some?
      ensures u[i].parent.value < i && i in u[u[i].parent.value].children
    {
      AppendTreeParentAt(t, p, f, i);
    }
  }

  lemma AppendTreeChildren(t: seq<Element>, p: nat, f: seq<Element>)
    requires WellFormed(t) && WellFormed(f) && p < |t|
    ensures var u := AppendTree(t, p, f);
      forall q, k :: 0 <= q < |u| && 0 <= k < |u[q].children| ==> u[q].children[k] < |u| && u[u[q].children[k]].parent == Some(q)
  {
    var u := AppendTree(t, p, f);
    var base := |t|;
    forall q, k | 0 <= q < |u| && 0 <= k < |u[q].children|
      ensures u[q].children[k] < |u| && u[u[q].children[k]].parent == Some(q)
    {
      if q >= base {
        var j := q - base;
        assert u[q] == Shifted(f, j, base, p);
        var c := f[j].children[k];
        assert c < |f| && f[c].parent == Some(j);
        assert c != 0;
        assert u[c + base] == Shifted(f, c, base, p);
      } else if q == p && k == |t[p].children| {
        assert u[base] == Shifted(f, 0, base, p);
      } else {
        assert u[q].children[k] == t[q].children[k];
      }
    }
  }

  lemma AppendTreeNoDup(t: seq<Element>, p: nat, f: seq<Element>)
    requires WellFormed(t) && WellFormed(f) && p < |t|
    ensures var u := AppendTree(t, p, f); forall q :: 0 <= q < |u| ==> NoDup(u[q].children)
  {
    var u := AppendTree(t, p, f);
    var base := |t|;
    forall q | 0 <= q < |u| ensures NoDup(u[q].children) {
      if q >= base {
        assert u[q] == Shifted(f, q - base, base, p);
        assert NoDup(f[q - base].children);
      } else if q == p {
        forall k | 0 <= k < |t[p].children| ensures t[p].children[k] < base {}
      }
    }
  }

  lemma AppendTreeWellFormed(t: seq<Element>, p: nat, f: seq<Element>)
    requires WellFormed(t) && WellFormed(f) && p < |t|
    ensures WellFormed(AppendTree(t, p, f))
  {
    AppendTreeParents(t, p, f);
    AppendTreeChildren(t, p, f);
    AppendTreeNoDup(t, p, f);
  }

  /** `t[p].remove(c)`: `c` leaves the child list of its parent `p` and is left detached. */
  function Remove(t: seq<Element>, p: nat, c: nat): (u: seq<Element>)
    requires p < |t| && c < |t| && p != c
    ensures |u| == |t|
    ensures u[p] == t[p].(children := FilterOut(t[p].children, {c})) && u[c] == t[c].(parent := None)
    ensures forall i :: 0 <= i < |t| && i != p && i != c ==> u[i] == t[i]
  {
    t[p := t[p].(children := FilterOut(t[p].children, {c}))][c := t[c].(parent := None)]
  }

  /**
    Removes every element of `m` from its parent, as lxml's `parent.remove(elem)` does for each element
    of `m` in turn: the element is taken out of its parent's child list and left detached.
   */
  function RemoveAll(t: seq<Element>, m: set<nat>): (u: seq<Element>)
    ensures |u| == |t|
    ensures forall i :: 0 <= i < |t| ==> u[i].tag == t[i].tag && u[i].attrs == t[i].attrs
    ensures forall i :: 0 <= i < |t| ==> u[i].children == FilterOut(t[i].children, m)
    ensures forall i :: 0 <= i < |t| ==> u[i].parent == if i in m then None else t[i].parent
  {
    seq(|t|, i requires 0 <= i < |t| => t[i].(parent := if i in m then None else t[i].parent, children := FilterOut(t[i].children, m)))
  }

  lemma RemoveAllWellFormed(t: seq<Element>, m: set<nat>)
    requires WellFormed(t)
    ensures WellFormed(RemoveAll(t, m))
  {
    var u := RemoveAll(t, m);
    forall i | 0 <= i < |u| && u[i].parent.Some?
      ensures u[i].parent.value < i && i in u[u[i].parent.value].children
    {
      assert i !in m;
      assert i in t[t[i].parent.value].children;
    }
    forall q, k | 0 <= q < |u| && 0 <= k < |u[q].children|
      ensures u[q].children[k] < |u| && u[u[q].children[k]].parent == Some(q)
    {
      var c := u[q].children[k];
      assert c in u[q].children;
      assert c in t[q].children && c !in m;
      ChildHasParent(t, q, c);
    }
    forall q | 0 <= q < |u| ensures NoDup(u[q].children) {
      FilterOutNoDup(t[q].children, m);
    }
  }

  /** Removing elements none of which is in the arena changes nothing. */
  lemma RemoveAllOutside(t: seq<Element>, m: set<nat>)
    requires WellFormed(t) && forall i :: 0 <= i < |t| ==> i !in m
    ensures RemoveAll(t, m) == t
  {
    var u := RemoveAll(t, m);
    forall i | 0 <= i < |t| ensures u[i] == t[i] {
      forall c | c in t[i].children ensures c !in m {
        ChildHasParent(t, i, c);
      }
      FilterOutNothing(t[i].children, m);
    }
  }

  lemma RemoveAllStepAt(t: seq<Element>, m: set<nat>, p: nat, c: nat, i: nat)
    requires WellFormed(t) && c < |t| && t[c].parent == Some(p) && c !in m && p < c && i < |t|
    ensures RemoveAll(t, m + {c})[i] == Remove(RemoveAll(t, m), p, c)[i]
  {
    var before := RemoveAll(t, m);
    var after := RemoveAll(t, m + {c});
    var stepped := Remove(before, p, c);
    if i == p {
      FilterOutTwice(t[p].children, m, {c});
      assert after[i].children == stepped[i].children;
    } else if i == c {
      assert after[i].children == FilterOut(t[i].children, m + {c});
      FilterOutTwice(t[i].children, m, {c});
      if c in t[i].children {
        ChildHasParent(t, i, c);
      }
      FilterOutNothing(FilterOut(t[i].children, m), {c});
      assert after[i].children == stepped[i].children;
    } else {
      if c in t[i].children {
        ChildHasParent(t, i, c);
      }
      FilterOutTwice(t[i].children, m, {c});
      FilterOutNothing(FilterOut(t[i].children, m), {c});
      assert after[i].children == stepped[i].children;
    }
    assert after[i].tag == stepped[i].tag && after[i].attrs == stepped[i].attrs && after[i].parent == stepped[i].parent;
  }

  /** Removing the elements of `m` one after another with `Remove` gives `RemoveAll`, in any order. */
  lemma RemoveAllStep(t: seq<Element>, m: set<nat>, p: nat, c: nat)
    requires WellFormed(t) && c < |t| && t[c].parent == Some(p) && c !in m
    ensures p < c
    ensures RemoveAll(t, m + {c}) == Remove(RemoveAll(t, m), p, c)
  {
    forall i | 0 <= i < |t| ensures RemoveAll(t, m + {c})[i] == Remove(RemoveAll(t, m), p, c)[i] {
      RemoveAllStepAt(t, m, p, c, i);
    }
  }

  /** Element `i` reaches the root through parent links without passing through `m` (itself included). */
  predicate AttachedAvoiding(t: seq<Element>, m: set<nat>, i: nat)
    decreases i
  {
    i < |t| && i !in m && (i == Root || (t[i].parent.Some? && t[i].parent.value < i && AttachedAvoiding(t, m, t[i].parent.value)))
  }

  /** After removing `m` (which does not hold the root), an element is in the document exactly when its path to the root avoids `m`. */
  lemma {:induction false} RemoveAllAttached(t: seq<Element>, m: set<nat>, i: nat)
    requires Root !in m
    ensures Attached(RemoveAll(t, m), i) <==> AttachedAvoiding(t, m, i)
    decreases i
  {
    var u := RemoveAll(t, m);
    if i < |t| && i != Root && t[i].parent.Some? && t[i].parent.value < i {
      RemoveAllAttached(t, m, t[i].parent.value);
    }
  }

  lemma {:induction false} AttachedAvoidingAttached(t: seq<Element>, m: set<nat>, i: nat)
    requires AttachedAvoiding(t, m, i)
    ensures Attached(t, i)
    decreases i
  {
    if i != Root {
      AttachedAvoidingAttached(t, m, t[i].parent.value);
    }
  }
}
