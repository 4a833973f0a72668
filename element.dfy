/**
  The designer's element tree. Every node of a generation project is an Element: it keeps an
  ordered list of children, a back-pointer to its parent, an excluded flag that hides it (and its
  subtree) from the filtered views and from error collection, and an id assigned on first read.

  The C# type of an element is modelled by two constants: `kind`, the name of its own class (what
  GetType().Name returns), and `kinds`, the names of every class it is an instance of (what
  `child is T` tests). The virtual members GetDisplayName, GetErrors and AllowDelete become a
  field, a constant list of errors and a constant flag.
*/
module Elements {
  import opened Wrappers

  /** The class every tree must have at its top for Root to succeed. */
  const RootKind: string := "RootElement"

  /** An error an element reports about itself. */
  datatype ElementError = ElementError(message: string)

  /** A cast of an element to a class it is not an instance of (InvalidCastException). */
  datatype ElementFault = InvalidCast(kind: string)

  /** What BeginTransaction hands back: the children the node had when it began. */
  datatype ElementTransaction = ElementTransaction(saved: seq<Element>)

  class Element {
    const kind: string
    const kinds: set<string>
    const allowDelete: bool
    const errors: seq<ElementError>
    var displayName: string
    var children: seq<Element>
    var parent: Element?
    var excluded: bool
    var elementId: Option<string>

    /** A new element of class `kind`, an instance of the classes `kinds`, with no children and no
        parent, not excluded and without an id yet. */
    constructor (kind: string, kinds: set<string>, displayName: string, allowDelete: bool, errors: seq<ElementError>)
      requires kind in kinds
      ensures this.kind == kind && this.kinds == kinds && this.allowDelete == allowDelete && this.errors == errors
      ensures this.displayName == displayName
      ensures children == [] && parent == null && !excluded && elementId.None?
    {
      this.kind := kind;
      this.kinds := kinds;
      this.allowDelete := allowDelete;
      this.errors := errors;
      this.displayName := displayName;
      children := [];
      parent := null;
      excluded := false;
      elementId := None;
    }

    /** An element without a parent is considered invalid. */
    predicate IsValid()
      reads this
    {
      parent != null
    }

    /** Every child points back to this element as its parent. */
    ghost predicate ParentLinked()
      reads this`children, children`parent
    {
      forall i :: 0 <= i < |children| ==> children[i].parent == this
    }

    /** Every child, excluded ones included, in order. */
    function AllChildren(): seq<Element>
      reads this`children
    {
      children
    }

    /** The children that are not excluded. */
    function Children(): (r: seq<Element>)
      reads this`children, children`excluded
      ensures forall i :: 0 <= i < |r| ==> r[i] in children && !r[i].excluded
      ensures forall i :: 0 <= i < |children| && !children[i].excluded ==> children[i] in r
    {
      NonExcluded(AllChildren())
    }

    /** The children that are not excluded and are instances of class `t`. */
    function GetChildren(t: string): (r: seq<Element>)
      reads this`children, children`excluded
      ensures forall i :: 0 <= i < |r| ==> r[i] in children && !r[i].excluded && t in r[i].kinds
      ensures forall i :: 0 <= i < |children| && !children[i].excluded && t in children[i].kinds ==> children[i] in r
    {
      OfKind(Children(), t)
    }

    /** The first child that is not excluded and is an instance of class `t`, or null. */
    function GetChild(t: string): (r: Element?)
      reads this`children, children`excluded
      ensures r != null ==> r in children && !r.excluded && t in r.kinds
      ensures r == null <==> forall i :: 0 <= i < |children| ==> children[i].excluded || t !in children[i].kinds
    {
      FirstOfKind(children, t)
    }

    /** Setting Excluded: the flag takes the new value (the change notification is not modelled). */
    method SetExcluded(value: bool)
      modifies this`excluded
      ensures excluded == value
    {
      excluded := value;
    }

    /** The "Exclude / Include" verb of a procedure element: flips the excluded flag. */
    method ExcludeInclude()
      modifies this`excluded
      ensures excluded == !old(excluded)
    {
      SetExcluded(!excluded);
    }

    /** Appends `child` to the children and makes this element its parent, which makes the child
        valid; the earlier children keep their order, and the filtered view gains the child unless
        it is excluded. Children and parents stay linked when the child had no parent; the former
        parent of a child that had one still lists it (see AddToSecondParent). */
    method AddChild(child: Element)
      modifies this`children, child`parent
      ensures children == old(children) + [child]
      ensures child.parent == this && child.IsValid()
      ensures Children() == old(Children()) + (if child.excluded then [] else [child])
      ensures old(ParentLinked()) && old(child.parent) == null ==> ParentLinked()
    {
      NonExcludedAppend(children, [child]);
      children := children + [child];
      child.parent := this;
    }

    /** Removes the first occurrence of `child` and clears its parent, unless the child does not
        allow deletion, in which case nothing changes. Children and parents stay linked when the
        child was listed at most once; a second occurrence stays listed without a parent (see
        DoubleAddThenRemove). */
    method RemoveChild(child: Element)
      modifies this`children, child`parent
      ensures !child.allowDelete ==> children == old(children) && child.parent == old(child.parent)
      ensures child.allowDelete ==> children == RemoveFirst(old(children), child) && child.parent == null && !child.IsValid()
      ensures old(ParentLinked()) && multiset(old(children))[child] <= 1 ==> ParentLinked()
    {
      if !child.allowDelete {
        return;
      }
      ghost var before := children;
      var i := 0;
      while i < |children| && children[i] != child
        invariant 0 <= i <= |children|
        invariant child !in children[..i]
      {
        i := i + 1;
      }
      RemoveFirstAt(children, child, i);
      if i < |children| {
        children := children[..i] + children[i + 1..];
      }
      child.parent := null;
      RemoveFirstKeeps(before, child);
    }

    /** Removes every child; the children keep their parent. */
    method ClearChildren()
      modifies this`children
      ensures children == []
    {
      children := [];
    }

    /** Captures the current children in a transaction and clears them. */
    method BeginTransaction() returns (trans: ElementTransaction)
      modifies this`children
      ensures trans.saved == old(children)
      ensures children == []
    {
      trans := ElementTransaction(AllChildren());
      ClearChildren();
    }

    /** The element's id: the one already assigned, or `newId` (a new Guid), which is then kept, so
        that every later read returns the same id. */
    method ElementId(newId: string) returns (id: string)
      modifies this`elementId
      ensures old(elementId).Some? ==> id == old(elementId).value
      ensures old(elementId).None? ==> id == newId
      ensures elementId == Some(id)
    {
      if elementId.None? {
        elementId := Some(newId);
      }
      id := elementId.value;
    }

    /** Follows the parent pointers to the top of the tree, `chain` being the ancestors from this
        element up to the top, and casts the top to a root element. */
    method Root(ghost chain: seq<Element>) returns (r: Result<Element, ElementFault>)
      requires AncestorChain(chain) && chain[0] == this
      ensures r.Ok? ==> r.value == chain[|chain| - 1] && r.value.parent == null && RootKind in r.value.kinds
      ensures r.Err? ==> r.error == InvalidCast(chain[|chain| - 1].kind) && RootKind !in chain[|chain| - 1].kinds
    {
      var current := this;
      ghost var i := 0;
      while current.parent != null
        invariant 0 <= i < |chain| && current == chain[i]
        invariant i < |chain| - 1 ==> chain[i].parent == chain[i + 1]
        decreases |chain| - i
      {
        current := current.parent;
        i := i + 1;
      }
      if RootKind in current.kinds {
        r := Ok(current);
      } else {
        r := Err(InvalidCast(current.kind));
      }
    }

    /** The child whose class name and display name, joined by "|", equal `t` and `name` joined
        by "|": the first such among all children, excluded ones included, cast to class `t`; or
        null when there is none. */
    method GetNamedChild(t: string, name: string) returns (r: Result<Element?, ElementFault>)
      ensures var i := NamedIndex(children, NamedKey(t, name));
        && (i == |children| ==> r == Ok(null))
        && (i < |children| && t in children[i].kinds ==> r == Ok(children[i]))
        && (i < |children| && t !in children[i].kinds ==> r == Err(InvalidCast(children[i].kind)))
    {
      var key := NamedKey(t, name);
      var all := AllChildren();
      var i := 0;
      while i < |all|
        invariant 0 <= i <= |all|
        invariant NamedIndex(all, key) == i + NamedIndex(all[i..], key)
      {
        var child := all[i];
        var childKey := NamedKey(child.kind, child.displayName);
        if key == childKey {
          if t in child.kinds {
            return Ok(child);
          }
          return Err(InvalidCast(child.kind));
        }
        assert all[i..][1..] == all[i + 1..];
        i := i + 1;
      }
      return Ok(null);
    }

    /** All errors of the subtree, `h` bounding its height: this element's own errors, then those
        of every child that is not excluded, in order; excluded subtrees are skipped. */
    method GetErrorsRecursive(ghost h: nat) returns (all: seq<ElementError>)
      requires Bounded(this, h)
      ensures all == TreeErrors(this, h)
      decreases h
    {
      all := errors;
      var i := 0;
      while i < |children|
        invariant 0 <= i <= |children|
        invariant SuffixBounded(this, h, i)
        invariant all + ChildErrors(children[i..], h - 1) == TreeErrors(this, h)
      {
        var child := children[i];
        ChildErrorsHead(this, h, i);
        if !child.excluded {
          var sub := child.GetErrorsRecursive(h - 1);
          all := all + sub;
        }
        i := i + 1;
      }
    }
  }

  // ---------------------------------------------------------------- unlinked children

  /** Adding a child twice and removing it once leaves it listed once, but without a parent. */
  method DoubleAddThenRemove() returns (p: Element, c: Element)
    ensures p.children == [c] && c.parent == null && !c.IsValid() && !p.ParentLinked()
  {
    p := new Element("Element", {"Element"}, "parent", true, []);
    c := new Element("Element", {"Element"}, "child", true, []);
    p.AddChild(c);
    p.AddChild(c);
    p.RemoveChild(c);
    assert RemoveFirst([c, c], c) == [c];
  }

  /** Adding a child to a second parent leaves it listed by the first, which it no longer names as
      its parent. */
  method AddToSecondParent() returns (a: Element, b: Element, c: Element)
    ensures a != b && c in a.children && c in b.children && c.parent == b && !a.ParentLinked()
  {
    a := new Element("Element", {"Element"}, "first", true, []);
    b := new Element("Element", {"Element"}, "second", true, []);
    c := new Element("Element", {"Element"}, "child", true, []);
    a.AddChild(c);
    b.AddChild(c);
    assert a.children[0] == c;
  }

  // ---------------------------------------------------------------- filters

  /** The elements of `cs` that are not excluded, in order. */
  function NonExcluded(cs: seq<Element>): (r: seq<Element>)
    reads cs`excluded
    ensures |r| <= |cs|
    ensures forall i :: 0 <= i < |r| ==> r[i] in cs && !r[i].excluded
    ensures forall i :: 0 <= i < |cs| && !cs[i].excluded ==> cs[i] in r
    decreases |cs|
  {
    if cs == [] then []
    else (if cs[0].excluded then [] else [cs[0]]) + NonExcluded(cs[1..])
  }

  /** The elements of `cs` that are instances of class `t`, in order. */
  function OfKind(cs: seq<Element>, t: string): (r: seq<Element>)
    ensures |r| <= |cs|
    ensures forall i :: 0 <= i < |r| ==> r[i] in cs && t in r[i].kinds
    ensures forall i :: 0 <= i < |cs| && t in cs[i].kinds ==> cs[i] in r
    decreases |cs|
  {
    if cs == [] then []
    else (if t in cs[0].kinds then [cs[0]] else []) + OfKind(cs[1..], t)
  }

  /** The first element of `cs` that is not excluded and is an instance of class `t`, or null. */
  function FirstOfKind(cs: seq<Element>, t: string): (r: Element?)
    reads cs`excluded
    ensures r != null ==> r in cs && !r.excluded && t in r.kinds
    ensures r == null <==> forall i :: 0 <= i < |cs| ==> cs[i].excluded || t !in cs[i].kinds
    decreases |cs|
  {
    if cs == [] then null
    else if !cs[0].excluded && t in cs[0].kinds then cs[0]
    else FirstOfKind(cs[1..], t)
  }

  /** `s` without the first occurrence of `x`; `s` itself when `x` does not occur. */
  function RemoveFirst(s: seq<Element>, x: Element): seq<Element>
    decreases |s|
  {
    if s == [] then []
    else if s[0] == x then s[1..]
    else [s[0]] + RemoveFirst(s[1..], x)
  }

  /** The lookup key of GetNamedChild: a class name and a display name joined by "|". */
  function NamedKey(t: string, name: string): string
  {
    t + "|" + name
  }

  /** The index of the first element of `cs` whose key is `key`, or |cs| when there is none. */
  function NamedIndex(cs: seq<Element>, key: string): (r: nat)
    reads cs`displayName
    ensures r <= |cs|
    ensures r < |cs| ==> NamedKey(cs[r].kind, cs[r].displayName) == key
    ensures forall j :: 0 <= j < r ==> NamedKey(cs[j].kind, cs[j].displayName) != key
    decreases |cs|
  {
    if cs == [] then 0
    else if NamedKey(cs[0].kind, cs[0].displayName) == key then 0
    else 1 + NamedIndex(cs[1..], key)
  }

  // ---------------------------------------------------------------- parent chains

  /** `chain` lists an element and its ancestors: each entry's parent is the next entry and the
      last entry has no parent. */
  ghost predicate AncestorChain(chain: seq<Element>)
    reads chain
  {
    && |chain| > 0
    && chain[|chain| - 1].parent == null
    && forall i :: 0 <= i < |chain| - 1 ==> chain[i].parent == chain[i + 1]
  }

  // ---------------------------------------------------------------- error collection

  /** The subtree of `e` that error collection visits (the element, then its children that are not
      excluded, recursively) has height at most `h`. */
  ghost predicate Bounded(e: Element, h: nat)
    reads *
    decreases h
  {
    h > 0 && forall i :: 0 <= i < |e.children| && !e.children[i].excluded ==> Bounded(e.children[i], h - 1)
  }

  /** The errors of the subtree of `e`: its own errors, then those of its children. */
  ghost function TreeErrors(e: Element, h: nat): seq<ElementError>
    reads *
    requires Bounded(e, h)
    decreases h, 0, 0
  {
    e.errors + ChildErrors(e.children, h - 1)
  }

  /** The errors of the subtrees of the elements `cs` that are not excluded, in order. */
  ghost function ChildErrors(cs: seq<Element>, h: nat): seq<ElementError>
    reads *
    requires forall i :: 0 <= i < |cs| && !cs[i].excluded ==> Bounded(cs[i], h)
    decreases h, 1, |cs|
  {
    if cs == [] then []
    else (if cs[0].excluded then [] else TreeErrors(cs[0], h)) + ChildErrors(cs[1..], h)
  }

  /** The children of `e` from index `i` on that error collection visits are bounded by `h - 1`. */
  ghost predicate SuffixBounded(e: Element, h: nat, i: nat)
    reads *
  {
    h > 0 && i <= |e.children| && forall j :: 0 <= j < |e.children[i..]| && !e.children[i..][j].excluded ==> Bounded(e.children[i..][j], h - 1)
  }

  /** One step of GetErrorsRecursive's loop: the errors from index `i` on are those of the child at
      `i`, unless it is excluded, followed by those from `i + 1` on. */
  lemma ChildErrorsHead(e: Element, h: nat, i: nat)
    requires Bounded(e, h) && i < |e.children|
    ensures SuffixBounded(e, h, i) && SuffixBounded(e, h, i + 1)
    ensures !e.children[i].excluded ==> Bounded(e.children[i], h - 1)
    ensures ChildErrors(e.children[i..], h - 1)
      == (if e.children[i].excluded then [] else TreeErrors(e.children[i], h - 1)) + ChildErrors(e.children[i + 1..], h - 1)
  {
    assert e.children[i..][0] == e.children[i] && e.children[i..][1..] == e.children[i + 1..];
  }

  // ---------------------------------------------------------------- properties of the filters

  lemma ConcatAssociates<T>(x: seq<T>, y: seq<T>, z: seq<T>)
    ensures x + (y + z) == (x + y) + z
  {
  }

  /** Filtering a sequence with a first element: that element, unless it is excluded, then the rest. */
  lemma NonExcludedCons(cs: seq<Element>)
    requires cs != []
    ensures NonExcluded(cs) == (if cs[0].excluded then [] else [cs[0]]) + NonExcluded(cs[1..])
  {
  }

  /** Filtering out excluded elements keeps order: it distributes over concatenation. */
  lemma {:induction false} NonExcludedAppend(a: seq<Element>, b: seq<Element>)
    ensures NonExcluded(a + b) == NonExcluded(a) + NonExcluded(b)
    decreases |a|
  {
    if a != [] {
      var head := if a[0].excluded then [] else [a[0]];
      assert (a + b)[0] == a[0] && (a + b)[1..] == a[1..] + b;
      NonExcludedCons(a + b);
      NonExcludedCons(a);
      NonExcludedAppend(a[1..], b);
      ConcatAssociates(head, NonExcluded(a[1..]), NonExcluded(b));
    } else {
      assert a + b == b;
    }
  }

  /** Filtering by class keeps order: it distributes over concatenation. */
  lemma {:induction false} OfKindAppend(a: seq<Element>, b: seq<Element>, t: string)
    ensures OfKind(a + b, t) == OfKind(a, t) + OfKind(b, t)
    decreases |a|
  {
    if a != [] {
      assert (a + b)[0] == a[0] && (a + b)[1..] == a[1..] + b;
      OfKindAppend(a[1..], b, t);
      assert OfKind(a + b, t) == (if t in a[0].kinds then [a[0]] else []) + OfKind(a[1..] + b, t);
      ConcatAssociates(if t in a[0].kinds then [a[0]] else [], OfKind(a[1..], t), OfKind(b, t));
    } else {
      assert a + b == b;
    }
  }

  /** GetChild is the head of GetChildren, or null when GetChildren is empty. */
  lemma {:induction false} FirstOfKindIsHead(cs: seq<Element>, t: string)
    ensures FirstOfKind(cs, t) == (if OfKind(NonExcluded(cs), t) == [] then null else OfKind(NonExcluded(cs), t)[0])
    decreases |cs|
  {
    if cs != [] {
      FirstOfKindIsHead(cs[1..], t);
      var head := if cs[0].excluded then [] else [cs[0]];
      assert NonExcluded(cs) == head + NonExcluded(cs[1..]);
      OfKindAppend(head, NonExcluded(cs[1..]), t);
    }
  }

  // ---------------------------------------------------------------- properties of RemoveFirst

  /** RemoveFirst cuts out the entry at the first index `i` where `x` occurs. */
  lemma {:induction false} RemoveFirstAt(s: seq<Element>, x: Element, i: nat)
    requires i <= |s| && x !in s[..i] && (i < |s| ==> s[i] == x)
    ensures RemoveFirst(s, x) == if i < |s| then s[..i] + s[i + 1..] else s
    decreases |s|
  {
    if s != [] {
      if s[0] != x {
        assert i > 0;
        assert s[1..][..i - 1] == s[..i][1..];
        RemoveFirstAt(s[1..], x, i - 1);
        if i < |s| {
          assert s[..i] == [s[0]] + s[1..][..i - 1];
          assert s[i + 1..] == s[1..][i..];
        } else {
          assert s == [s[0]] + s[1..];
        }
      }
    }
  }

  /** RemoveFirst takes away exactly one occurrence of `x` when there is one, and nothing else. */
  lemma {:induction false} RemoveFirstCount(s: seq<Element>, x: Element)
    ensures x in s ==> multiset(RemoveFirst(s, x)) == multiset(s) - multiset{x} && |RemoveFirst(s, x)| == |s| - 1
    ensures x !in s ==> RemoveFirst(s, x) == s
    decreases |s|
  {
    if s != [] {
      RemoveFirstCount(s[1..], x);
      assert s == [s[0]] + s[1..];
    }
  }

  /** What RemoveFirst keeps comes from `s`, and a single occurrence of `x` is gone. */
  lemma RemoveFirstKeeps(s: seq<Element>, x: Element)
    ensures forall i :: 0 <= i < |RemoveFirst(s, x)| ==> RemoveFirst(s, x)[i] in s
    ensures multiset(s)[x] <= 1 ==> x !in RemoveFirst(s, x)
  {
    RemoveFirstCount(s, x);
    var r := RemoveFirst(s, x);
    forall i | 0 <= i < |r|
      ensures r[i] in s
    {
      assert r[i] in multiset(r);
    }
    if multiset(s)[x] <= 1 && x in s {
      assert multiset(r)[x] == 0;
    }
  }

  // ---------------------------------------------------------------- properties of the named lookup

  /** The index of the first "|" in `s`, or |s| when there is none. */
  function BarIndex(s: string): nat
    decreases |s|
  {
    if s == [] || s[0] == '|' then 0 else 1 + BarIndex(s[1..])
  }

  lemma {:induction false} BarIndexOfKey(t: string, name: string)
    requires '|' !in t
    ensures BarIndex(NamedKey(t, name)) == |t|
    decreases |t|
  {
    if t != [] {
      assert NamedKey(t, name)[1..] == NamedKey(t[1..], name);
      BarIndexOfKey(t[1..], name);
    }
  }

  /** Class names contain no "|", so two keys are equal exactly when both the class names and the
      display names are. */
  lemma NamedKeyMatches(t1: string, n1: string, t2: string, n2: string)
    requires '|' !in t1 && '|' !in t2
    ensures NamedKey(t1, n1) == NamedKey(t2, n2) <==> t1 == t2 && n1 == n2
  {
    var k1, k2 := NamedKey(t1, n1), NamedKey(t2, n2);
    BarIndexOfKey(t1, n1);
    BarIndexOfKey(t2, n2);
    if k1 == k2 {
      assert |t1| == |t2|;
      assert t1 == k1[..|t1|] && t2 == k2[..|t2|];
      assert n1 == k1[|t1| + 1..] && n2 == k2[|t2| + 1..];
    }
  }

  // ---------------------------------------------------------------- properties of parent chains

  /** An element has only one chain of ancestors, so Root has only one possible answer. */
  lemma {:induction false} AncestorChainUnique(c1: seq<Element>, c2: seq<Element>)
    requires AncestorChain(c1) && AncestorChain(c2) && c1[0] == c2[0]
    ensures c1 == c2
    decreases |c1|
  {
    if |c1| > 1 {
      assert c1[0].parent == c1[0 + 1];
    }
    if |c2| > 1 {
      assert c2[0].parent == c2[0 + 1];
    }
    if |c1| > 1 {
      AncestorChainUnique(c1[1..], c2[1..]);
      assert c1 == [c1[0]] + c1[1..] && c2 == [c2[0]] + c2[1..];
    }
  }

  /** A parentless element is its own chain of ancestors, so Root returns the element itself; an
      element with a parent has the chain of its parent after it, so both have the same root. */
  lemma AncestorChainOfParent(chain: seq<Element>)
    requires AncestorChain(chain)
    ensures chain[0].parent == null ==> chain == [chain[0]]
    ensures chain[0].parent != null ==>
      |chain| > 1 && chain[1] == chain[0].parent && AncestorChain(chain[1..]) && chain[1..][|chain| - 2] == chain[|chain| - 1]
  {
    if |chain| > 1 {
      assert chain[0].parent == chain[0 + 1];
      forall i | 0 <= i < |chain[1..]| - 1
        ensures chain[1..][i].parent == chain[1..][i + 1]
      {
        assert chain[i + 1].parent == chain[i + 1 + 1];
      }
    }
  }

  // ---------------------------------------------------------------- properties of error collection

  /** A height bound stays a bound when it grows. */
  lemma {:induction false} BoundedGrows(e: Element, h: nat, h': nat)
    requires Bounded(e, h) && h <= h'
    ensures Bounded(e, h')
    decreases h
  {
    forall i | 0 <= i < |e.children| && !e.children[i].excluded
      ensures Bounded(e.children[i], h' - 1)
    {
      BoundedGrows(e.children[i], h - 1, h' - 1);
    }
  }

  /** The errors of a subtree do not depend on the height bound used to collect them. */
  lemma {:induction false} TreeErrorsAnyBound(e: Element, h1: nat, h2: nat)
    requires Bounded(e, h1) && Bounded(e, h2)
    ensures TreeErrors(e, h1) == TreeErrors(e, h2)
    decreases h1, 0, 0
  {
    ChildErrorsAnyBound(e.children, h1 - 1, h2 - 1);
  }

  lemma {:induction false} ChildErrorsAnyBound(cs: seq<Element>, h1: nat, h2: nat)
    requires forall i :: 0 <= i < |cs| && !cs[i].excluded ==> Bounded(cs[i], h1) && Bounded(cs[i], h2)
    ensures ChildErrors(cs, h1) == ChildErrors(cs, h2)
    decreases h1, 1, |cs|
  {
    if cs != [] {
      if !cs[0].excluded {
        TreeErrorsAnyBound(cs[0], h1, h2);
      }
      ChildErrorsAnyBound(cs[1..], h1, h2);
    }
  }

  /** Collecting the errors of the children keeps their order: it distributes over concatenation. */
  lemma {:induction false} ChildErrorsAppend(a: seq<Element>, b: seq<Element>, h: nat)
    requires forall i :: 0 <= i < |a| && !a[i].excluded ==> Bounded(a[i], h)
    requires forall i :: 0 <= i < |b| && !b[i].excluded ==> Bounded(b[i], h)
    ensures ChildErrors(a + b, h) == ChildErrors(a, h) + ChildErrors(b, h)
    decreases |a|
  {
    if a != [] {
      assert (a + b)[0] == a[0] && (a + b)[1..] == a[1..] + b;
      ChildErrorsAppend(a[1..], b, h);
      assert ChildErrors(a + b, h) == (if a[0].excluded then [] else TreeErrors(a[0], h)) + ChildErrors(a[1..] + b, h);
      ConcatAssociates(if a[0].excluded then [] else TreeErrors(a[0], h), ChildErrors(a[1..], h), ChildErrors(b, h));
    } else {
      assert a + b == b;
    }
  }

  /** Excluded children contribute nothing: the errors of all children are those of the children
      that are not excluded. */
  lemma {:induction false} ExcludedChildrenSkipped(cs: seq<Element>, h: nat)
    requires forall i :: 0 <= i < |cs| && !cs[i].excluded ==> Bounded(cs[i], h)
    ensures forall i :: 0 <= i < |NonExcluded(cs)| ==> Bounded(NonExcluded(cs)[i], h)
    ensures ChildErrors(cs, h) == ChildErrors(NonExcluded(cs), h)
    decreases |cs|
  {
    if cs != [] {
      ExcludedChildrenSkipped(cs[1..], h);
      if !cs[0].excluded {
        assert NonExcluded(cs) == [cs[0]] + NonExcluded(cs[1..]);
        assert NonExcluded(cs)[0] == cs[0] && NonExcluded(cs)[1..] == NonExcluded(cs[1..]);
      } else {
        assert NonExcluded(cs) == NonExcluded(cs[1..]);
      }
    }
  }
}
