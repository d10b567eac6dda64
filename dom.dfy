/**
 * The instance tree that the binary and XML codecs produce and consume: an
 * arena of instances keyed by ref, with a designated root. `WeakDom` is the
 * mutable form of it, with the operations `process_model_dom` calls (a new dom
 * around a root, inserting a detached tree, moving an instance under a new
 * parent); `Dom` is its value.
 */
module Dom {
  import opened Wrappers

  /** An instance identifier. */
  type Ref = nat

  /** A property value. The sync command never looks inside one. */
  datatype Variant =
    | Bool(b: bool)
    | Int(i: int)
    | Str(s: string)
    | Enum(e: nat)
    | Referent(target: Ref)

  type Properties = map<string, Variant>

  datatype Instance = Instance(
    name: string,
    className: string,
    properties: Properties,
    children: seq<Ref>,
    parent: Option<Ref>)

  /** A detached instance tree with no refs yet: an `InstanceBuilder`. */
  datatype Builder = Builder(name: string, className: string, properties: Properties, children: seq<Builder>)

  /** Every child an instance lists is itself in the arena. */
  ghost predicate ChildrenPresent(m: map<Ref, Instance>)
  {
    forall r, c :: r in m && c in m[r].children ==> c in m
  }

  datatype Dom = Dom(instances: map<Ref, Instance>, root: Ref) {
    ghost predicate WellFormed()
    {
      root in instances && ChildrenPresent(instances)
    }
  }

  /** The doms a codec can hand over: the root and every listed child exist. */
  type WfDom = d: Dom | d.WellFormed()
    witness Dom(map[0 := Instance("", "", map[], [], None)], 0)

  /** The tree hanging below `r`: its name, class, properties and, in order,
      the trees below its children. `above` holds the refs on the path down to
      `r`; a child that is absent from the arena or already on that path is
      skipped (neither occurs in a well-formed tree, but skipping makes the
      descent terminate on any arena). */
  function Extract(m: map<Ref, Instance>, r: Ref, above: set<Ref>): Builder
    requires r in m && r !in above
    decreases m.Keys - above, 0
  {
    Builder(m[r].name, m[r].className, m[r].properties, ExtractAll(m, m[r].children, above + {r}))
  }

  function ExtractAll(m: map<Ref, Instance>, refs: seq<Ref>, above: set<Ref>): seq<Builder>
    decreases m.Keys - above, |refs|
  {
    if refs == [] then []
    else if refs[0] in m && refs[0] !in above then [Extract(m, refs[0], above)] + ExtractAll(m, refs[1..], above)
    else ExtractAll(m, refs[1..], above)
  }

  /** The subtree rooted at `r`, as a clone of it would reproduce it. */
  function Subtree(m: map<Ref, Instance>, r: Ref): Builder
    requires r in m
  {
    Extract(m, r, {})
  }

  /** The subtrees rooted at each of `refs`, in order. */
  function Subtrees(m: map<Ref, Instance>, refs: seq<Ref>): seq<Builder>
    requires forall i :: 0 <= i < |refs| ==> refs[i] in m
  {
    seq(|refs|, i requires 0 <= i < |refs| => Subtree(m, refs[i]))
  }

  /** Two instances that differ at most in their parent. */
  predicate SameContent(a: Instance, b: Instance)
  {
    a.name == b.name && a.className == b.className && a.properties == b.properties && a.children == b.children
  }

  /** The number of instances in `b`. */
  function Size(b: Builder): nat
    decreases b, |b.children| + 1
  {
    1 + ChildrenSize(b, |b.children|)
  }

  /** The number of instances in the first `n` child trees of `b`. */
  function ChildrenSize(b: Builder, n: nat): nat
    requires n <= |b.children|
    decreases b, n
  {
    if n == 0 then 0 else ChildrenSize(b, n - 1) + Size(b.children[n - 1])
  }

  /** The number of instances in all of `bs`. */
  function SeqSize(bs: seq<Builder>): nat
  {
    if bs == [] then 0 else SeqSize(bs[..|bs| - 1]) + Size(bs[|bs| - 1])
  }

  lemma {:induction false} ChildrenSizeMono(b: Builder, i: nat, n: nat)
    requires i <= n <= |b.children|
    ensures ChildrenSize(b, i) <= ChildrenSize(b, n)
    decreases n
  {
    if i < n {
      ChildrenSizeMono(b, i, n - 1);
    }
  }

  lemma {:induction false} ChildrenSizeIsSeqSize(b: Builder, n: nat)
    requires n <= |b.children|
    ensures ChildrenSize(b, n) == SeqSize(b.children[..n])
    decreases n
  {
    if n > 0 {
      ChildrenSizeIsSeqSize(b, n - 1);
      assert b.children[..n][..n - 1] == b.children[..n - 1];
    }
  }

  lemma SeqSizeStep(bs: seq<Builder>, i: nat)
    requires i < |bs|
    ensures SeqSize(bs[..i + 1]) == SeqSize(bs[..i]) + Size(bs[i])
  {
    assert bs[..i + 1][..i] == bs[..i];
  }

  lemma {:induction false} SeqSizeMono(bs: seq<Builder>, i: nat, n: nat)
    requires i <= n <= |bs|
    ensures SeqSize(bs[..i]) <= SeqSize(bs[..n])
    decreases n
  {
    if i < n {
      SeqSizeMono(bs, i, n - 1);
      SeqSizeStep(bs, n - 1);
    }
  }

  /** `b` is laid out in `m` at `r`, in pre-order: `r` carries the name,
      class, properties and number of children of `b`'s top node, and the
      `i`th child is a layout of `b`'s `i`th child tree whose parent is `r`,
      placed right after the instances of the children before it. The layout
      thus occupies the refs `r` up to `r + Size(b)`, each once. */
  ghost predicate Embeds(m: map<Ref, Instance>, r: Ref, b: Builder)
    decreases b, 1
  {
    && r in m
    && m[r].name == b.name && m[r].className == b.className && m[r].properties == b.properties
    && |m[r].children| == |b.children|
    && forall i :: 0 <= i < |b.children| ==> ChildLaidOut(m, r, b, i)
  }

  /** The `i`th child of `r` is a layout of `b`'s `i`th child tree, placed
      right after the instances of the children before it, with `r` as its
      parent. */
  ghost predicate ChildLaidOut(m: map<Ref, Instance>, r: Ref, b: Builder, i: nat)
    decreases b, 0
  {
    && r in m && i < |m[r].children| && i < |b.children|
    && var k := m[r].children[i];
    && k == r + 1 + ChildrenSize(b, i)
    && k in m && m[k].parent == Some(r)
    && Embeds(m, k, b.children[i])
  }

  /** A layout survives any change that keeps the content of its top
      instance and every other instance in its range. */
  lemma {:induction false} EmbedsFrame(m: map<Ref, Instance>, m': map<Ref, Instance>, r: Ref, b: Builder)
    requires Embeds(m, r, b)
    requires r in m' && SameContent(m[r], m'[r])
    requires forall x :: x in m && r < x < r + Size(b) ==> x in m' && m'[x] == m[x]
    ensures Embeds(m', r, b)
    decreases b
  {
    forall i | 0 <= i < |b.children|
      ensures ChildLaidOut(m', r, b, i)
    {
      assert ChildLaidOut(m, r, b, i);
      var k := m[r].children[i];
      ChildrenSizeMono(b, i + 1, |b.children|);
      assert k + Size(b.children[i]) <= r + Size(b);
      EmbedsFrame(m, m', k, b.children[i]);
    }
  }

  /** The child tree of `b` whose instances hold position `y` among those of
      its first `n` child trees. */
  lemma {:induction false} ChildHolding(b: Builder, n: nat, y: nat) returns (i: nat)
    requires n <= |b.children| && y < ChildrenSize(b, n)
    ensures i < n && ChildrenSize(b, i) <= y < ChildrenSize(b, i) + Size(b.children[i])
    decreases n
  {
    if y < ChildrenSize(b, n - 1) {
      i := ChildHolding(b, n - 1, y);
    } else {
      i := n - 1;
    }
  }

  /** A layout fills its range: every ref from `r` up to `r + Size(b)` is in
      the dom. */
  lemma {:induction false} EmbedsCovers(m: map<Ref, Instance>, r: Ref, b: Builder, x: Ref)
    requires Embeds(m, r, b) && r <= x < r + Size(b)
    ensures x in m
    decreases b
  {
    if x != r {
      var i := ChildHolding(b, |b.children|, x - r - 1);
      assert ChildLaidOut(m, r, b, i);
      EmbedsCovers(m, m[r].children[i], b.children[i], x);
    }
  }

  /** Reading back a layout gives the tree that was laid out, provided every
      ref on the path above it is smaller. */
  lemma {:induction false} EmbeddedExtracts(m: map<Ref, Instance>, r: Ref, b: Builder, above: set<Ref>)
    requires Embeds(m, r, b)
    requires forall a :: a in above ==> a < r
    ensures r in m && r !in above && Extract(m, r, above) == b
    decreases b
  {
    var kids := m[r].children;
    var above' := above + {r};
    forall i | 0 <= i < |kids|
      ensures kids[i] in m && kids[i] !in above' && Extract(m, kids[i], above') == b.children[i]
    {
      assert ChildLaidOut(m, r, b, i);
      EmbeddedExtracts(m, kids[i], b.children[i], above');
    }
    ExtractAllOf(m, kids, above', b.children);
  }

  lemma {:induction false} ExtractAllOf(m: map<Ref, Instance>, refs: seq<Ref>, above: set<Ref>, bs: seq<Builder>)
    requires |refs| == |bs|
    requires forall i :: 0 <= i < |refs| ==> refs[i] in m && refs[i] !in above && Extract(m, refs[i], above) == bs[i]
    ensures ExtractAll(m, refs, above) == bs
    decreases |refs|
  {
    if refs != [] {
      ExtractAllOf(m, refs[1..], above, bs[1..]);
      assert bs == [bs[0]] + bs[1..];
    }
  }

  /** The top instance at `r` carries `b`'s name, class and properties, has
      `parent` as its parent, and lays out the first `count` children of `b`. */
  ghost predicate PartlyEmbeds(m: map<Ref, Instance>, r: Ref, b: Builder, count: nat, parent: Option<Ref>)
  {
    && r in m && m[r].parent == parent
    && m[r].name == b.name && m[r].className == b.className && m[r].properties == b.properties
    && count <= |b.children| && |m[r].children| == count
    && forall j :: 0 <= j < count ==> ChildLaidOut(m, r, b, j)
  }

  /** Laying out one more child right after the others, changing no other
      instance than the top one, keeps the children laid out so far. */
  lemma PartlyEmbedsStep(m: map<Ref, Instance>, m': map<Ref, Instance>, r: Ref, b: Builder, count: nat,
                         parent: Option<Ref>, c: Ref)
    requires PartlyEmbeds(m, r, b, count, parent) && count < |b.children|
    requires c == r + 1 + ChildrenSize(b, count)
    requires r in m' && m'[r] == m[r].(children := m[r].children + [c])
    requires forall x :: x in m && x != r ==> x in m' && m'[x] == m[x]
    requires Embeds(m', c, b.children[count]) && m'[c].parent == Some(r)
    ensures PartlyEmbeds(m', r, b, count + 1, parent)
  {
    forall j | 0 <= j < count
      ensures ChildLaidOut(m', r, b, j)
    {
      assert ChildLaidOut(m, r, b, j);
      assert m'[r].children[j] == m[r].children[j];
      EmbedsFrame(m, m', m[r].children[j], b.children[j]);
    }
    assert m'[r].children[count] == c;
    assert ChildLaidOut(m', r, b, count);
  }

  /** `s` without any occurrence of `x`. */
  function Without(s: seq<Ref>, x: Ref): (r: seq<Ref>)
    ensures forall y :: y in r <==> y in s && y != x
  {
    if s == [] then []
    else if s[0] == x then Without(s[1..], x)
    else [s[0]] + Without(s[1..], x)
  }

  /** What inserting `r` under `parent` makes of the instance `x`. */
  function AfterInsert(inst: Instance, x: Ref, parent: Option<Ref>, r: Ref): Instance
  {
    if parent == Some(x) then inst.(children := inst.children + [r]) else inst
  }

  /** A mutable instance tree. Refs are handed out in increasing order. */
  class WeakDom {
    var instances: map<Ref, Instance>
    var rootRef: Ref
    var nextRef: Ref

    ghost predicate Valid()
      reads this
    {
      && rootRef in instances
      && ChildrenPresent(instances)
      && forall r :: r in instances ==> r < nextRef
    }

    function Value(): (d: Dom)
      reads this
      ensures Valid() ==> d.WellFormed()
    {
      Dom(instances, rootRef)
    }

    /** A dom holding one instance of class `className`, named after its class,
        with no properties and no children. */
    constructor (className: string)
      ensures Valid()
      ensures instances == map[rootRef := Instance(className, className, map[], [], None)]
      ensures nextRef == rootRef + 1
    {
      rootRef := 0;
      nextRef := 1;
      instances := map[0 := Instance(className, className, map[], [], None)];
    }

    /** Sets one property of the root. */
    method InsertRootProperty(key: string, value: Variant)
      requires Valid()
      modifies this
      ensures Valid() && rootRef == old(rootRef) && nextRef == old(nextRef)
      ensures instances == old(instances)[rootRef := old(instances[rootRef]).(properties := old(instances[rootRef].properties)[key := value])]
    {
      var root := instances[rootRef];
      instances := instances[rootRef := root.(properties := root.properties[key := value])];
    }

    /** Adds a childless instance under `parent`, or detached when there is
        none, at a fresh ref. */
    method AddInstance(parent: Option<Ref>, name: string, className: string, properties: Properties) returns (r: Ref)
      requires Valid() && (parent.Some? ==> parent.value in instances)
      modifies this
      ensures Valid() && rootRef == old(rootRef)
      ensures r == old(nextRef) && nextRef == r + 1
      ensures instances.Keys == old(instances).Keys + {r}
      ensures instances[r] == Instance(name, className, properties, [], parent)
      ensures forall x :: x in old(instances) ==> instances[x] == AfterInsert(old(instances[x]), x, parent, r)
    {
      r := nextRef;
      nextRef := nextRef + 1;
      instances := instances[r := Instance(name, className, properties, [], parent)];
      if parent.Some? {
        var p := instances[parent.value];
        instances := instances[parent.value := p.(children := p.children + [r])];
      }
    }

    /** Inserts the tree `b` under `parent`, or detached when there is none,
        and returns the ref of its top instance. The tree is laid out in
        pre-order at the next `Size(b)` fresh refs; the only existing
        instance it touches is the parent, whose children gain the new ref
        at the end. */
    method Insert(parent: Option<Ref>, b: Builder) returns (r: Ref)
      requires Valid() && (parent.Some? ==> parent.value in instances)
      modifies this
      ensures Valid() && rootRef == old(rootRef)
      ensures r == old(nextRef) && nextRef == r + Size(b)
      ensures Embeds(instances, r, b) && instances[r].parent == parent
      ensures forall x :: x in instances ==> x in old(instances) || old(nextRef) <= x < nextRef
      ensures forall x :: x in old(instances) ==> x in instances && instances[x] == AfterInsert(old(instances[x]), x, parent, r)
      decreases b, 1
    {
      r := AddInstance(parent, b.name, b.className, b.properties);
      InsertChildren(r, b, parent);
    }

    /** Inserts the child trees of `b`, in order, under the instance `r` that
        was just added for `b`'s top node. */
    method InsertChildren(r: Ref, b: Builder, ghost parent: Option<Ref>)
      requires Valid() && PartlyEmbeds(instances, r, b, 0, parent) && nextRef == r + 1
      modifies this
      ensures Valid() && rootRef == old(rootRef) && nextRef == r + Size(b)
      ensures PartlyEmbeds(instances, r, b, |b.children|, parent)
      ensures forall x :: x in instances ==> x in old(instances) || old(nextRef) <= x < nextRef
      ensures forall x :: x in old(instances) && x != r ==> x in instances && instances[x] == old(instances[x])
      decreases b, 0
    {
      var i := 0;
      while i < |b.children|
        invariant 0 <= i <= |b.children|
        invariant Valid() && rootRef == old(rootRef)
        invariant nextRef == r + 1 + ChildrenSize(b, i)
        invariant PartlyEmbeds(instances, r, b, i, parent)
        invariant forall x :: x in instances ==> x in old(instances) || old(nextRef) <= x < nextRef
        invariant forall x :: x in old(instances) && x != r ==> x in instances && instances[x] == old(instances[x])
      {
        ghost var before := instances;
        var c := Insert(Some(r), b.children[i]);
        PartlyEmbedsStep(before, instances, r, b, i, parent, c);
        i := i + 1;
      }
    }

    /** `transfer_within`: moves `r` to the end of `dest`'s children, taking it
        out of its former parent's children. */
    method TransferWithin(r: Ref, dest: Ref)
      requires Valid() && r in instances && dest in instances && r != dest
      requires instances[r].parent != Some(r)
      modifies this
      ensures Valid() && rootRef == old(rootRef) && nextRef == old(nextRef)
      ensures instances.Keys == old(instances).Keys
      ensures instances[r] == old(instances[r]).(parent := Some(dest))
      ensures instances[dest] == old(instances[dest]).(children :=
        (if old(instances[r].parent) == Some(dest) then Without(old(instances[dest].children), r)
         else old(instances[dest].children)) + [r])
      ensures forall p :: old(instances[r].parent) == Some(p) && p in old(instances) && p != dest ==>
        instances[p] == old(instances[p]).(children := Without(old(instances[p].children), r))
      ensures forall x :: x in old(instances) && x != r && x != dest && old(instances[r].parent) != Some(x) ==>
        instances[x] == old(instances[x])
    {
      var inst := instances[r];
      instances := instances[r := inst.(parent := Some(dest))];
      if inst.parent.Some? && inst.parent.value in instances {
        var p := inst.parent.value;
        instances := instances[p := instances[p].(children := Without(instances[p].children, r))];
      }
      instances := instances[dest := instances[dest].(children := instances[dest].children + [r])];
    }
  }

  /** `clones` are layouts in `m` of the first `|clones|` trees of `bs`, laid
      out one after the other from `lo`; those from position `detachedFrom`
      on are detached. */
  ghost predicate ClonedAs(m: map<Ref, Instance>, clones: seq<Ref>, bs: seq<Builder>, lo: Ref, detachedFrom: nat)
  {
    && |clones| <= |bs|
    && (forall i :: 0 <= i < |clones| ==> clones[i] in m && CloneAt(m, clones, bs, lo, i))
    && (forall i :: detachedFrom <= i < |clones| ==> clones[i] in m && m[clones[i]].parent == None)
  }

  /** The `i`th clone lays out the `i`th tree, right after the clones before it. */
  ghost predicate CloneAt(m: map<Ref, Instance>, clones: seq<Ref>, bs: seq<Builder>, lo: Ref, i: nat)
  {
    && i < |clones| && i < |bs|
    && clones[i] == lo + SeqSize(bs[..i])
    && Embeds(m, clones[i], bs[i])
  }

  lemma ClonedAsStep(m: map<Ref, Instance>, m': map<Ref, Instance>, clones: seq<Ref>, bs: seq<Builder>, lo: Ref, c: Ref)
    requires ClonedAs(m, clones, bs, lo, 0) && |clones| < |bs|
    requires forall x :: x in m ==> x in m' && m'[x] == m[x]
    requires c == lo + SeqSize(bs[..|clones|]) && Embeds(m', c, bs[|clones|]) && m'[c].parent == None
    ensures ClonedAs(m', clones + [c], bs, lo, 0)
  {
    var cs := clones + [c];
    forall j | 0 <= j < |cs|
      ensures CloneAt(m', cs, bs, lo, j)
    {
      if j < |clones| {
        assert CloneAt(m, clones, bs, lo, j);
        EmbedsFrame(m, m', clones[j], bs[j]);
      }
    }
    forall j | 0 <= j < |cs|
      ensures cs[j] in m' && m'[cs[j]].parent == None
    {
      if j < |clones| {
        assert clones[j] in m;
      }
    }
  }

  /** `clone_multiple_into_external`: copies the subtree under each of `refs`
      in `src` into `dest`, each as a detached tree at fresh refs, one after
      the other, and returns the refs of the copies in order. Nothing already
      in `dest` changes. */
  method CloneMultipleIntoExternal(src: WfDom, refs: seq<Ref>, dest: WeakDom) returns (clones: seq<Ref>)
    requires dest.Valid()
    requires forall i :: 0 <= i < |refs| ==> refs[i] in src.instances
    modifies dest
    ensures dest.Valid() && dest.rootRef == old(dest.rootRef)
    ensures dest.nextRef == old(dest.nextRef) + SeqSize(Subtrees(src.instances, refs))
    ensures |clones| == |refs|
    ensures ClonedAs(dest.instances, clones, Subtrees(src.instances, refs), old(dest.nextRef), 0)
    ensures forall x :: x in old(dest.instances) ==> x in dest.instances && dest.instances[x] == old(dest.instances[x])
    ensures forall x :: x in dest.instances ==> x in old(dest.instances) || old(dest.nextRef) <= x
  {
    ghost var bs := Subtrees(src.instances, refs);
    clones := [];
    var i := 0;
    while i < |refs|
      invariant 0 <= i <= |refs| && |clones| == i
      invariant dest.Valid() && dest.rootRef == old(dest.rootRef)
      invariant dest.nextRef == old(dest.nextRef) + SeqSize(bs[..i])
      invariant ClonedAs(dest.instances, clones, bs, old(dest.nextRef), 0)
      invariant forall x :: x in old(dest.instances) ==> x in dest.instances && dest.instances[x] == old(dest.instances[x])
      invariant forall x :: x in dest.instances ==> x in old(dest.instances) || old(dest.nextRef) <= x
    {
      ghost var before := dest.instances;
      var c := dest.Insert(None, Subtree(src.instances, refs[i]));
      SeqSizeStep(bs, i);
      ClonedAsStep(before, dest.instances, clones, bs, old(dest.nextRef), c);
      clones := clones + [c];
      i := i + 1;
    }
    assert bs[..|refs|] == bs;
  }
}
