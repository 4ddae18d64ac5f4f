/** The child list of a cJSON item: a null-terminated chain through `next`, linked back through `prev`,
    where the first child's `prev` is the last child. */
module CJsonList {
  import opened Bits
  import opened Layout

  const IS_REFERENCE: nat := 256
  const CIRCULAR_LIMIT := 10000

  /** What an item holds besides its links. */
  datatype Payload = Payload(kind: nat, valuestring: Option<seq<byte>>, valueint: int, name: Option<seq<byte>>)

  /** `struct cJSON`. */
  class Item {
    const payload: Payload
    var next: Item?
    var prev: Item?
    var child: Item?

    /** `cJSON_New_Item`, with its contents. */
    constructor (payload: Payload)
      ensures this.payload == payload && next == null && prev == null && child == null
    {
      this.payload := payload;
      next, prev, child := null, null, null;
    }
  }

  // ---- The invariant -----------------------------------------------------------------------

  ghost function First(s: seq<Item>): Item? {
    if s == [] then null else s[0]
  }

  ghost function After(s: seq<Item>, i: nat): Item?
    requires i < |s|
  {
    if i + 1 < |s| then s[i + 1] else null
  }

  ghost function Before(s: seq<Item>, i: nat): Item
    requires i < |s|
  {
    if i > 0 then s[i - 1] else s[|s| - 1]
  }

  ghost predicate Linked(s: seq<Item>, i: nat)
    requires i < |s|
    reads s
  {
    s[i].next == After(s, i) && s[i].prev == Before(s, i)
  }

  /** The children of `parent` are `s`, in order. */
  ghost predicate Children(parent: Item, s: seq<Item>)
    reads parent`child, s
  {
    && parent !in s && parent.child == First(s) && Distinct(s)
    && forall i: nat :: i < |s| ==> Linked(s, i)
  }

  /** The chain determines the sequence. */
  lemma {:induction false} ChildrenUnique(parent: Item, s: seq<Item>, r: seq<Item>)
    requires Children(parent, s) && Children(parent, r)
    ensures s == r
  {
    SamePrefix(parent, s, r, |s|);
    SamePrefix(parent, r, s, |r|);
  }

  lemma {:induction false} SamePrefix(parent: Item, s: seq<Item>, r: seq<Item>, n: nat)
    requires Children(parent, s) && Children(parent, r) && n <= |s|
    ensures n <= |r| && s[..n] == r[..n]
    decreases n
  {
    if n > 0 {
      SamePrefix(parent, s, r, n - 1);
      if n > 1 {
        assert Linked(s, n - 2) && Linked(r, n - 2);
        assert s[..n - 1][n - 2] == r[..n - 1][n - 2];
      }
    }
  }

  // ---- Looking up --------------------------------------------------------------------------

  /** `get_array_item`. */
  method GetArrayItem(parent: Item?, index: nat, ghost s: seq<Item>) returns (r: Item?)
    requires parent != null ==> Children(parent, s)
    ensures r == if parent != null && index < |s| then s[index] else null
  {
    if parent == null {
      return null;
    }
    var current_child, rest := parent.child, index;
    ghost var k: nat := 0;
    while current_child != null && rest > 0
      invariant k <= |s| && k + rest == index
      invariant current_child == if k < |s| then s[k] else null
      decreases rest
    {
      assert Linked(s, k);
      rest := rest - 1;
      current_child := current_child.next;
      k := k + 1;
    }
    return current_child;
  }

  /** `cJSON_GetArraySize`. */
  method GetArraySize(parent: Item, ghost s: seq<Item>) returns (size: nat)
    requires Children(parent, s)
    ensures size == |s|
  {
    size := 0;
    var child := parent.child;
    while child != null
      invariant size <= |s| && child == if size < |s| then s[size] else null
      decreases |s| - size
    {
      assert Linked(s, size);
      size := size + 1;
      child := child.next;
    }
  }

  // ---- Changing the list -------------------------------------------------------------------

  /** `suffix_object`. */
  method SuffixObject(prev: Item, item: Item)
    modifies prev`next, item`prev
    ensures prev.next == item && item.prev == prev
  {
    prev.next := item;
    item.prev := prev;
  }

  /** Only links were changed: no item got other children, and the parent itself stays where it is. */
  twostate predicate LinksOnly(parent: Item, items: set<Item>)
    reads parent, items
  {
    && parent.next == old(parent.next) && parent.prev == old(parent.prev)
    && forall x :: x in items && x != parent ==> x.child == old(x.child)
  }

  /** `add_item_to_array`: appends.  The item's own forward link stays, so that the list is well formed
      exactly if it was empty before or the item was detached. */
  method AddItem(parent: Item?, item: Item?, ghost s: seq<Item>) returns (ok: bool)
    requires parent != null ==> Children(parent, s)
    requires parent != null && item != null ==> item !in s
    modifies parent, item, s
    ensures ok <==> item != null && parent != null && parent != item
    ensures ok ==> (Children(parent, s + [item]) <==> s == [] || old(item.next) == null)
    ensures ok ==> LinksOnly(parent, (set x | x in s) + {item})
    ensures ok && s != [] ==> item.next == old(item.next) && parent.child != null && parent.child.prev == item
    ensures !ok && parent != null ==> Children(parent, s)
  {
    if item == null || parent == null || parent == item {
      return false;
    }
    var child := parent.child;
    ghost var r := s + [item];
    assert r[|s|] == item;
    if child == null {
      parent.child := item;
      item.prev := item;
      item.next := null;
    } else {
      assert Linked(s, 0);
      if child.prev != null {
        SuffixObject(child.prev, item);
        parent.child.prev := item;
      }
      if item.next == null {
        forall i: nat | i < |r|
          ensures Linked(r, i)
        {
          assert i < |s| ==> old(Linked(s, i));
        }
      } else {
        assert !Linked(r, |s|);
      }
    }
    return true;
  }

  /** In any list of children the first child's back link leads to the end of the chain.  So after an item
      that was not detached is added to a list, no sequence at all is the list of children. */
  lemma TailEnds(parent: Item, r: seq<Item>)
    requires Children(parent, r) && parent.child != null
    ensures parent.child.prev != null && parent.child.prev.next == null && parent.child.prev == r[|r| - 1]
  {
    assert Linked(r, 0) && Linked(r, |r| - 1);
  }

  /** The item at position `i`, given as a pointer. */
  ghost predicate IsAt(s: seq<Item>, i: nat, item: Item) {
    i < |s| && s[i] == item
  }

  /** `cJSON_DetachItemViaPointer`: takes child number `i` out, which then points nowhere. */
  method DetachItem(parent: Item?, item: Item?, ghost s: seq<Item>, ghost i: nat) returns (r: Item?)
    requires parent != null ==> Children(parent, s)
    requires parent != null && item != null ==> IsAt(s, i, item)
    modifies parent, s
    ensures r == if parent == null then null else item
    ensures r != null ==> Children(parent, s[..i] + s[i + 1..]) && r.next == null && r.prev == null
    ensures parent != null ==> LinksOnly(parent, (set x | x in s))
    ensures r == null && parent != null ==> Children(parent, s)
  {
    assert parent != null && item != null ==> Linked(s, i) && Linked(s, 0);
    if parent == null || item == null || (item != parent.child && item.prev == null) {
      return null;
    }
    assert i + 1 < |s| ==> Linked(s, i + 1);
    ghost var rest := s[..i] + s[i + 1..];
    DistinctWithout(s, i);
    if item != parent.child {
      item.prev.next := item.next;
    }
    if item.next != null {
      item.next.prev := item.prev;
    }
    if item == parent.child {
      parent.child := item.next;
    } else if item.next == null {
      parent.child.prev := item.prev;
    }
    item.prev := null;
    item.next := null;
    forall k: nat | k < |rest|
      ensures Linked(rest, k)
    {
      assert old(Linked(s, if k < i then k else k + 1));
    }
    return item;
  }

  /** `cJSON_DetachItemFromArray`. */
  method DetachFromArray(parent: Item, which: int, ghost s: seq<Item>) returns (r: Item?)
    requires Children(parent, s)
    modifies parent, s
    ensures 0 <= which < |s| ==> r == s[which] && Children(parent, s[..which] + s[which + 1..]) && r.next == null && r.prev == null
    ensures !(0 <= which < |s|) ==> r == null && Children(parent, s)
    ensures LinksOnly(parent, (set x | x in s))
  {
    if which < 0 {
      return null;
    }
    var item := GetArrayItem(parent, which, s);
    r := DetachItem(parent, item, s, which);
  }

  /** `cJSON_InsertItemInArray`: before child number `which`, or at the end.  The list stays well formed
      exactly if the parent is not put under itself, and at the end of a list the item was detached. */
  method InsertItem(parent: Item, which: int, newitem: Item?, ghost s: seq<Item>) returns (ok: bool)
    requires Children(parent, s)
    requires newitem != null ==> newitem !in s
    modifies parent, newitem, s
    ensures ok <==> which >= 0 && newitem != null && (which < |s| || newitem != parent)
    ensures ok && which < |s| ==> (Children(parent, s[..which] + [newitem] + s[which..]) <==> newitem != parent)
    ensures ok && which >= |s| ==> (Children(parent, s + [newitem]) <==> s == [] || old(newitem.next) == null)
    ensures ok && newitem != parent ==> LinksOnly(parent, (set x | x in s) + {newitem})
    ensures !ok ==> Children(parent, s)
  {
    if which < 0 || newitem == null {
      return false;
    }
    var after_inserted := GetArrayItem(parent, which, s);
    if after_inserted == null {
      ok := AddItem(parent, newitem, s);
      return;
    }
    ok := InsertBefore(parent, after_inserted, newitem, s, which);
  }

  method InsertBefore(parent: Item, after_inserted: Item, newitem: Item, ghost s: seq<Item>, ghost i: nat) returns (ok: bool)
    requires Children(parent, s) && newitem !in s && IsAt(s, i, after_inserted)
    modifies parent, newitem, s
    ensures ok && (Children(parent, s[..i] + [newitem] + s[i..]) <==> newitem != parent)
    ensures newitem != parent ==> LinksOnly(parent, (set x | x in s) + {newitem})
  {
    ghost var r := s[..i] + [newitem] + s[i..];
    assert r[i] == newitem;
    assert Linked(s, i) && Linked(s, 0);
    assert i > 0 ==> Linked(s, i - 1);
    if after_inserted != parent.child && after_inserted.prev == null {
      return false;
    }
    newitem.next := after_inserted;
    newitem.prev := after_inserted.prev;
    after_inserted.prev := newitem;
    if after_inserted == parent.child {
      parent.child := newitem;
    } else {
      newitem.prev.next := newitem;
    }
    if newitem != parent {
      forall k: nat | k < |r|
        ensures Linked(r, k)
      {
        assert k < i ==> old(Linked(s, k));
        assert k > i ==> old(Linked(s, k - 1));
      }
    }
    return true;
  }

  /** `cJSON_ReplaceItemViaPointer`: child number `i` gives way to the replacement. */
  method ReplaceItem(parent: Item?, item: Item?, replacement: Item?, ghost s: seq<Item>, ghost i: nat) returns (ok: bool)
    requires parent != null ==> Children(parent, s)
    requires parent != null && item != null ==> IsAt(s, i, item)
    requires parent != null && replacement != null && replacement != item ==> replacement !in s && replacement != parent
    modifies parent, replacement, s
    ensures ok <==> parent != null && item != null && replacement != null
    ensures ok ==> Children(parent, s[i := replacement]) && LinksOnly(parent, (set x | x in s) + {replacement})
    ensures ok && replacement != item ==> item.next == null && item.prev == null
    ensures !ok && parent != null ==> Children(parent, s)
  {
    if parent == null || parent.child == null || replacement == null || item == null {
      return false;
    }
    if replacement == item {
      assert s[i := replacement] == s;
      return true;
    }
    ghost var r := s[i := replacement];
    assert Linked(s, i) && Linked(s, 0) && Linked(s, |s| - 1);
    assert i > 0 ==> Linked(s, i - 1);
    replacement.next := item.next;
    replacement.prev := item.prev;
    if replacement.next != null {
      replacement.next.prev := replacement;
    }
    if parent.child == item {
      if parent.child.prev == parent.child {
        replacement.prev := replacement;
      }
      parent.child := replacement;
    } else {
      if replacement.prev != null {
        replacement.prev.next := replacement;
      }
      if replacement.next == null {
        parent.child.prev := replacement;
      }
    }
    item.next := null;
    item.prev := null;
    forall k: nat | k < |r|
      ensures Linked(r, k)
    {
      assert old(Linked(s, k));
    }
    return true;
  }

  /** `cJSON_ReplaceItemInArray`. */
  method ReplaceInArray(parent: Item, which: int, newitem: Item?, ghost s: seq<Item>) returns (ok: bool)
    requires Children(parent, s)
    requires newitem != null ==> newitem !in s && newitem != parent
    modifies parent, newitem, s
    ensures ok <==> 0 <= which < |s| && newitem != null
    ensures if ok then Children(parent, s[which := newitem]) else Children(parent, s)
  {
    if which < 0 {
      return false;
    }
    var item := GetArrayItem(parent, which, s);
    ok := ReplaceItem(parent, item, newitem, s, which);
  }

  /** Detaching an inserted item restores the list. */
  method InsertAndDetach(parent: Item, which: nat, newitem: Item, ghost s: seq<Item>) returns (r: Item?)
    requires Children(parent, s) && newitem !in s && newitem != parent
    requires which < |s| || s == [] || newitem.next == null
    modifies parent, newitem, s
    ensures r == newitem && Children(parent, s) && newitem.next == null && newitem.prev == null
  {
    hide Children;
    var size := GetArraySize(parent, s);
    var ok := InsertItem(parent, which, newitem, s);
    ghost var i := if which < |s| then which else |s|;
    ghost var longer := s[..i] + [newitem] + s[i..];
    assert which >= |s| ==> longer == s + [newitem];
    r := DetachFromArray(parent, if which < size then which else size, longer);
    assert longer[..i] + longer[i + 1..] == s;
  }

  // ---- Copies ------------------------------------------------------------------------------

  /** The items of a tree, as a tree. */
  datatype Shape = Shape(at: Item, kids: seq<Shape>)

  datatype Value = Value(payload: Payload, kids: seq<Value>)

  /** The roots of several trees, in order. */
  ghost function Heads(kids: seq<Shape>): (r: seq<Item>)
    ensures |r| == |kids| && forall x :: x in r ==> x in Roots(kids)
    decreases kids
  {
    if kids == [] then [] else Heads(kids[..|kids| - 1]) + [kids[|kids| - 1].at]
  }

  ghost function Roots(kids: seq<Shape>): set<Item>
    decreases kids
  {
    if kids == [] then {} else Roots(kids[..|kids| - 1]) + {kids[|kids| - 1].at}
  }

  /** The items below the roots. */
  ghost function Under(kids: seq<Shape>): set<Item>
    decreases kids, 0
  {
    if kids == [] then {} else Under(kids[..|kids| - 1]) + AllOf(kids[|kids| - 1].kids)
  }

  ghost function AllOf(kids: seq<Shape>): set<Item>
    decreases kids, 1
  {
    Roots(kids) + Under(kids)
  }

  ghost function All(t: Shape): set<Item> {
    {t.at} + AllOf(t.kids)
  }

  /** `t` is the tree of the items under `t.at`: all lists of children are well formed and nothing is
      shared. */
  ghost predicate IsTree(t: Shape)
    reads t.at`child, AllOf(t.kids)
    decreases t
  {
    t.at !in AllOf(t.kids) && Forest(t.kids) && Children(t.at, Heads(t.kids))
  }

  /** Trees that share nothing.  The links between their roots do not matter here. */
  ghost predicate Forest(kids: seq<Shape>)
    reads Roots(kids)`child, Under(kids)
    decreases kids
  {
    kids == [] || (var last := |kids| - 1;
                   Forest(kids[..last]) && IsTree(kids[last]) && AllOf(kids[..last]) !! All(kids[last]))
  }

  lemma {:induction false} RootsApart(kids: seq<Shape>)
    requires Forest(kids)
    ensures Roots(kids) !! Under(kids)
    decreases kids
  {
    if kids != [] {
      RootsApart(kids[..|kids| - 1]);
    }
  }

  lemma OneMore(kids: seq<Shape>, kid: Shape)
    ensures Heads(kids + [kid]) == Heads(kids) + [kid.at] && Roots(kids + [kid]) == Roots(kids) + {kid.at}
    ensures AllOf(kids + [kid]) == AllOf(kids) + All(kid)
    ensures Forest(kids + [kid]) <==> Forest(kids) && IsTree(kid) && AllOf(kids) !! All(kid)
  {
    hide Forest, IsTree, AllOf;
    var longer := kids + [kid];
    assert longer[..|longer| - 1] == kids && longer[|longer| - 1] == kid;
    assert Forest(longer) <==> Forest(kids) && IsTree(kid) && AllOf(kids) !! All(kid) by { ForestStep(longer); }
    assert AllOf(longer) == AllOf(kids) + All(kid) by { AllOfStep(longer); }
  }

  lemma ForestStep(kids: seq<Shape>)
    requires kids != []
    ensures var last := |kids| - 1;
            Forest(kids) <==> Forest(kids[..last]) && IsTree(kids[last]) && AllOf(kids[..last]) !! All(kids[last])
  {
    hide IsTree, AllOf, All;
  }

  lemma AllOfStep(kids: seq<Shape>)
    requires kids != []
    ensures AllOf(kids) == AllOf(kids[..|kids| - 1]) + All(kids[|kids| - 1])
  {
  }

  /** What the tree stands for. */
  ghost function Abstract(t: Shape): Value {
    Value(t.at.payload, seq(|t.kids|, k requires 0 <= k < |t.kids| => Abstract(t.kids[k])))
  }

  /** Copies are never references. */
  function Cleared(p: Payload): Payload {
    p.(kind := if (p.kind / IS_REFERENCE) % 2 == 1 then p.kind - IS_REFERENCE else p.kind)
  }

  ghost function Copy(v: Value): Value {
    Value(Cleared(v.payload), seq(|v.kids|, k requires 0 <= k < |v.kids| => Copy(v.kids[k])))
  }

  /** No children at the depth limit. */
  ghost predicate Shallow(t: Shape, depth: nat) {
    t.kids == [] || (depth < 10000 && forall k :: 0 <= k < |t.kids| ==> Shallow(t.kids[k], depth + 1))
  }

  /** The children copied so far, not yet closed to a list: the first one has no `prev`. */
  ghost predicate Open(parent: Item, s: seq<Item>)
    reads parent`child, s
  {
    && parent !in s && parent.child == First(s) && Distinct(s)
    && forall i: nat :: i < |s| ==> Chained(s, i)
  }

  ghost predicate Chained(s: seq<Item>, i: nat)
    requires i < |s|
    reads s
  {
    s[i].next == After(s, i) && s[i].prev == if i > 0 then s[i - 1] else null
  }

  /** Links one more child behind the last one. */
  method AppendKid(newitem: Item, next: Item?, newchild: Item, ghost kids: seq<Shape>, ghost kid: Shape)
    requires Forest(kids) && Open(newitem, Heads(kids)) && newitem !in AllOf(kids)
    requires IsTree(kid) && kid.at == newchild && All(kid) !! AllOf(kids) && newitem !in All(kid)
    requires newchild.next == null && newchild.prev == null
    requires next == Last(Heads(kids))
    modifies newitem`child, next, newchild
    ensures Forest(kids + [kid]) && Open(newitem, Heads(kids + [kid]))
  {
    hide Forest, IsTree, Heads, Roots, Under, Children;
    OneMore(kids, kid);
    RootsApart(kids);
    Rooted(kid);
    ghost var s := Heads(kids);
    if next != null {
      next.next := newchild;
      newchild.prev := next;
    } else {
      newitem.child := newchild;
    }
    assert Forest(kids) && IsTree(kid);
    OneMore(kids, kid);
    ghost var r := s + [newchild];
    forall i: nat | i < |r|
      ensures Chained(r, i)
    {
      assert i < |s| ==> old(Chained(s, i));
    }
  }

  ghost function Last(s: seq<Item>): Item? {
    if s == [] then null else s[|s| - 1]
  }

  lemma Rooted(t: Shape)
    requires IsTree(t)
    ensures t.at !in AllOf(t.kids) && Forest(t.kids) && Children(t.at, Heads(t.kids))
  {
  }

  /** Closing the list: the first child's `prev` is the last child. */
  method CloseKids(newitem: Item, newchild: Item?, ghost kids: seq<Shape>)
    requires Forest(kids) && Open(newitem, Heads(kids)) && newitem !in AllOf(kids)
    requires newchild == Last(Heads(kids))
    modifies if newitem.child == null then {} else {newitem.child}
    ensures IsTree(Shape(newitem, kids))
    ensures newitem.next == old(newitem.next) && newitem.prev == old(newitem.prev)
  {
    hide Forest, Heads, Roots, Under;
    ghost var s := Heads(kids);
    RootsApart(kids);
    assert newitem.child == First(s);
    assert s != [] ==> s[0] in Roots(kids);
    if newitem.child != null {
      newitem.child.prev := newchild;
    }
    forall i: nat | i < |s|
      ensures Linked(s, i)
    {
      assert old(Chained(s, i));
    }
  }

  /** The copies of the first `k` children. */
  ghost predicate Copied(kids: seq<Shape>, originals: seq<Shape>) {
    |kids| <= |originals| && forall i :: 0 <= i < |kids| ==> Abstract(kids[i]) == Copy(Abstract(originals[i]))
  }

  lemma CopiedAll(t: Shape, newitem: Item, kids: seq<Shape>)
    requires Copied(kids, t.kids) && |kids| == |t.kids| && newitem.payload == Cleared(t.at.payload)
    ensures Abstract(Shape(newitem, kids)) == Copy(Abstract(t))
  {
    var a, b := Abstract(Shape(newitem, kids)), Copy(Abstract(t));
    assert a.kids == b.kids;
  }

  /** Child number `k` in the chain. */
  lemma ChildAt(t: Shape, k: nat)
    requires IsTree(t) && k < |t.kids|
    ensures |Heads(t.kids)| == |t.kids| && Heads(t.kids)[k] == t.kids[k].at && IsTree(t.kids[k])
    ensures t.kids[k].at.next == (if k + 1 < |t.kids| then t.kids[k + 1].at else null)
  {
    hide IsTree, Forest, Heads, AllOf, Roots, Under;
    Rooted(t);
    HeadAt(t.kids, k);
    if k + 1 < |t.kids| {
      HeadAt(t.kids, k + 1);
    }
    ForestAt(t.kids, k);
    assert Linked(Heads(t.kids), k);
  }

  lemma {:induction false} HeadAt(kids: seq<Shape>, k: nat)
    requires k < |kids|
    ensures Heads(kids)[k] == kids[k].at
    decreases kids
  {
    if k < |kids| - 1 {
      HeadAt(kids[..|kids| - 1], k);
    }
  }

  lemma {:induction false} ForestAt(kids: seq<Shape>, k: nat)
    requires Forest(kids) && k < |kids|
    ensures IsTree(kids[k])
    decreases kids
  {
    if k < |kids| - 1 {
      ForestAt(kids[..|kids| - 1], k);
    }
  }

  /** `cJSON_Duplicate_rec`: fails only beyond the depth limit; otherwise the copy is made of new items
      and stands for the same value. */
  method DuplicateRec(item: Item?, depth: nat, recurse: bool, ghost t: Shape) returns (newitem: Item?, ghost copy: Shape)
    requires item != null ==> t.at == item && IsTree(t)
    ensures newitem != null <==> item != null && (recurse ==> Shallow(t, depth))
    ensures newitem != null ==> copy.at == newitem && fresh(All(copy)) && IsTree(copy)
    ensures newitem != null ==> Abstract(copy) == if recurse then Copy(Abstract(t)) else Value(Cleared(item.payload), [])
    ensures newitem != null ==> newitem.next == null && newitem.prev == null
    decreases t, 0
  {
    hide Forest, IsTree, Heads, Roots, Under, Children, Open, Abstract, Copy, Cleared, Linked, Chained, Distinct, First, After;
    copy := t;
    if item == null {
      return null, t;
    }
    ghost var mine := All(t);
    Allocated(t.kids);
    FirstChild(t);
    newitem := new Item(Cleared(item.payload));
    assert newitem !in mine;
    assert newitem !in AllOf(t.kids) && newitem != t.at;
    assert IsTree(t);
    copy := Shape(newitem, []);
    Lonely(newitem);
    if !recurse {
      return;
    }
    var child, next: Item?, newchild: Item? := item.child, null, null;
    ghost var k: nat := 0;
    ghost var kids: seq<Shape> := [];
    while child != null
      invariant k <= |t.kids| && |kids| == k && child == (if k < |t.kids| then t.kids[k].at else null)
      invariant newchild == next == Last(Heads(kids))
      invariant fresh(newitem) && newitem.next == null && newitem.prev == null
      invariant IsTree(t) && forall x :: x in mine ==> x != newitem && x !in AllOf(kids)
      invariant Forest(kids) && fresh(AllOf(kids)) && newitem !in AllOf(kids) && Open(newitem, Heads(kids))
      invariant Copied(kids, t.kids)
      invariant forall i :: 0 <= i < k ==> Shallow(t.kids[i], depth + 1)
      invariant k > 0 ==> depth < CIRCULAR_LIMIT
      decreases |t.kids| - k
    {
      if depth >= CIRCULAR_LIMIT {
        return null, t;
      }
      ChildAt(t, k);
      LastInside(kids);
      ghost var kid;
      newchild, kid := CopyKid(newitem, next, child, depth, t.kids[k], kids);
      if newchild == null {
        return null, t;
      }
      assert newitem !in All(kid);
      next := newchild;
      child := child.next;
      kids := kids + [kid];
      k := k + 1;
    }
    FirstKid(newitem, kids);
    CloseKids(newitem, newchild, kids);
    CopiedAll(t, newitem, kids);
    copy := Shape(newitem, kids);
  }

  /** One turn of the loop: the next child is copied and linked behind the copies so far. */
  method CopyKid(newitem: Item, next: Item?, child: Item, depth: nat, ghost t: Shape, ghost kids: seq<Shape>)
    returns (newchild: Item?, ghost kid: Shape)
    requires t.at == child && IsTree(t)
    requires Forest(kids) && Open(newitem, Heads(kids)) && newitem !in AllOf(kids) && next == Last(Heads(kids))
    modifies newitem`child, next
    ensures newchild != null <==> Shallow(t, depth + 1)
    ensures newchild != null ==>
              && kid.at == newchild && fresh(All(kid)) && AllOf(kids + [kid]) == AllOf(kids) + All(kid)
              && Heads(kids + [kid]) == Heads(kids) + [newchild]
              && Forest(kids + [kid]) && Open(newitem, Heads(kids + [kid])) && Abstract(kid) == Copy(Abstract(t))
    decreases t, 1
  {
    hide Forest, IsTree, Heads, Roots, Under, Children, Open, Abstract, Copy, Cleared, Linked, Chained, Distinct, First, After;
    Allocated(kids);
    ghost var s := Heads(kids);
    AllocatedHeads(kids);
    newchild, kid := DuplicateRec(child, depth + 1, true, t);
    if newchild == null {
      return;
    }
    assert Open(newitem, s);
    OneMore(kids, kid);
    assert newitem !in All(kid) && All(kid) !! AllOf(kids);
    AppendKid(newitem, next, newchild, kids, kid);
  }

  /** A tree consists of existing items. */
  lemma {:induction false} Allocated(kids: seq<Shape>)
    ensures forall x :: x in AllOf(kids) ==> allocated(x)
    decreases kids
  {
    if kids != [] {
      AllOfStep(kids);
      Allocated(kids[..|kids| - 1]);
      Allocated(kids[|kids| - 1].kids);
    }
  }

  lemma AllocatedHeads(kids: seq<Shape>)
    ensures forall i :: 0 <= i < |Heads(kids)| ==> allocated(Heads(kids)[i])
    ensures forall x :: x in Roots(kids) || x in Under(kids) ==> allocated(x)
  {
    hide Heads;
    Allocated(kids);
    forall i | 0 <= i < |Heads(kids)|
      ensures allocated(Heads(kids)[i])
    {
      assert Heads(kids)[i] in Heads(kids);
      assert Heads(kids)[i] in AllOf(kids);
    }
  }

  lemma LastInside(kids: seq<Shape>)
    ensures Last(Heads(kids)) != null ==> Last(Heads(kids)) in AllOf(kids)
  {
    hide Heads;
    assert Last(Heads(kids)) != null ==> Last(Heads(kids)) in Heads(kids);
  }

  lemma FirstKid(parent: Item, kids: seq<Shape>)
    requires Open(parent, Heads(kids))
    ensures parent.child != null ==> parent.child in AllOf(kids)
  {
    assert parent.child != null ==> parent.child in Heads(kids);
  }

  lemma Lonely(item: Item)
    requires item.child == null
    ensures IsTree(Shape(item, [])) && All(Shape(item, [])) == {item} && Abstract(Shape(item, [])) == Value(item.payload, [])
    ensures Forest([]) && AllOf([]) == {} && Open(item, Heads([])) && Heads([]) == []
  {
    assert Under([]) == {} && Roots([]) == {} && Heads([]) == [] && AllOf([]) == {};
    assert Children(item, []) && Forest([]) && Open(item, []);
    assert IsTree(Shape(item, []));
    var t := Shape(item, []);
    assert t.kids == [] && All(t) == {item};
    assert Abstract(t).kids == [] && Abstract(t).payload == item.payload;
  }

  lemma FirstChild(t: Shape)
    requires IsTree(t)
    ensures t.at.child == if t.kids == [] then null else t.kids[0].at
  {
    if t.kids != [] {
      HeadAt(t.kids, 0);
    }
  }
}
