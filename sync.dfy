/**
 * `rojo sync`: merges a project into an existing place or model file. The
 * input and output kinds come from the file extensions; the input is decoded
 * (and, for a model, re-rooted at its single top-level instance); the patch
 * from the project to that tree is stripped of every removal and every
 * property clear, applied, and the result is encoded in the output's kind.
 */
module Sync {
  import opened Wrappers
  import opened Paths
  import opened Dom
  import opened Patch

  type Bytes = seq<bv8>

  datatype FileKind = Rbxmx | Rbxlx | Rbxm | Rbxl

  /** The two codec families: `rbx_binary` and `rbx_xml`. */
  datatype Codec = Binary | Xml

  datatype SyncError =
    | UnknownInputKind
    | UnknownOutputKind
    | ProjectLoadFailed
    | InputOpenFailed
    | DecodeFailed(kind: FileKind)
    | UnsupportedModelRoot(count: nat)
    | OutputCreateFailed
    | EncodeFailed(codec: Codec)

  // ---------------------------------------------------------------------
  // File kinds

  /** The extension that names each kind. */
  function ExtensionOf(kind: FileKind): string
  {
    match kind
    case Rbxlx => "rbxlx"
    case Rbxmx => "rbxmx"
    case Rbxl => "rbxl"
    case Rbxm => "rbxm"
  }

  /** The `match` of `FileKind::from_path`: exactly the four extensions name a
      kind, each its own. */
  function KindOfExtension(ext: string): (kind: Option<FileKind>)
    ensures forall k :: kind == Some(k) <==> ext == ExtensionOf(k)
  {
    if ext == "rbxlx" then Some(Rbxlx)
    else if ext == "rbxmx" then Some(Rbxmx)
    else if ext == "rbxl" then Some(Rbxl)
    else if ext == "rbxm" then Some(Rbxm)
    else None
  }

  /** `FileKind::from_path`: a path is of kind `k` exactly when its
      extension spells `k`'s extension; a path without an extension, with
      any other extension, or with one that is not valid UTF-8 has no kind. */
  function FromPath(path: OsStr): (kind: Option<FileKind>)
    ensures forall k :: kind == Some(k) <==> Extension(path) == Some(OsString(ExtensionOf(k)))
  {
    match Extension(path)
    case None => None
    case Some(ext) =>
      match ToStr(ext)
      case None => None
      case Some(s) =>
        assert ext == OsString(s);
        KindOfExtension(s)
  }

  /** A path whose extension holds a byte that is not UTF-8 has no kind. */
  lemma NonUtf8ExtensionRejected(path: OsStr, i: nat)
    requires Extension(path).Some? && i < |Extension(path).value| && Extension(path).value[i].Byte?
    ensures FromPath(path) == None
  {
  }

  /** Naming a file `<stem>.<extension of kind>` makes it of that kind,
      whatever the non-empty stem, provided it does not end in a separator. */
  lemma FromPathOfNamedFile(stem: OsStr, kind: FileKind)
    requires stem != [] && stem[|stem| - 1] != Separator
    ensures FromPath(stem + [Dot] + OsString(ExtensionOf(kind))) == Some(kind)
  {
    var e := OsString(ExtensionOf(kind));
    assert Dot !in e && Separator !in e by {
      forall u | u in e ensures u != Dot && u != Separator {
        var i :| 0 <= i < |e| && e[i] == u;
        assert u == Char(ExtensionOf(kind)[i]);
      }
    }
    ExtensionOfAppended(stem, e);
  }

  // ---------------------------------------------------------------------
  // Codec dispatch

  /** The codec for a kind: binary for `.rbxl` and `.rbxm`, XML for the kinds
      whose extension ends in `x`. */
  function CodecOf(kind: FileKind): (codec: Codec)
    ensures codec == Xml <==> ExtensionOf(kind)[|ExtensionOf(kind)| - 1] == 'x'
  {
    match kind
    case Rbxl | Rbxm => Binary
    case Rbxlx | Rbxmx => Xml
  }

  /** Model kinds hold a single instance; place kinds hold a whole place. The
      model kinds are those whose extension reads `rbxm...`. */
  function IsModel(kind: FileKind): (model: bool)
    ensures model <==> ExtensionOf(kind)[3] == 'm'
  {
    kind == Rbxm || kind == Rbxmx
  }

  // ---------------------------------------------------------------------
  // The merge policy

  /** `retain(|_, value| value.is_some())`: the deltas that set a value. */
  function SetsOnly(changes: map<string, Option<Variant>>): (kept: map<string, Option<Variant>>)
    ensures forall key :: key in kept <==> key in changes && changes[key].Some?
    ensures forall key :: key in kept ==> kept[key] == changes[key]
  {
    map key | key in changes && changes[key].Some? :: changes[key]
  }

  function KeepSets(update: PatchUpdate): PatchUpdate
  {
    update.(changedProperties := SetsOnly(update.changedProperties))
  }

  /** No update in `p` clears a property. */
  ghost predicate NoClears(p: PatchSetValue)
  {
    forall i, key :: 0 <= i < |p.updatedInstances| && key in p.updatedInstances[i].changedProperties ==>
      p.updatedInstances[i].changedProperties[key].Some?
  }

  /** The patch `rojo sync` applies in place of `p`: it removes nothing and
      clears nothing; it keeps every addition, and every update in place with
      its id, name and class changes, and with exactly its property sets, at
      their values. An update that only cleared properties stays, empty. */
  function MergeFiltered(p: PatchSetValue): (q: PatchSetValue)
    ensures q.removedInstances == []
    ensures q.addedInstances == p.addedInstances
    ensures |q.updatedInstances| == |p.updatedInstances|
    ensures forall i :: 0 <= i < |p.updatedInstances| ==>
      && q.updatedInstances[i].id == p.updatedInstances[i].id
      && q.updatedInstances[i].changedName == p.updatedInstances[i].changedName
      && q.updatedInstances[i].changedClassName == p.updatedInstances[i].changedClassName
    ensures forall i, key :: 0 <= i < |p.updatedInstances| ==>
      (key in q.updatedInstances[i].changedProperties <==>
         key in p.updatedInstances[i].changedProperties && p.updatedInstances[i].changedProperties[key].Some?)
    ensures forall i, key :: 0 <= i < |p.updatedInstances| && key in q.updatedInstances[i].changedProperties ==>
      q.updatedInstances[i].changedProperties[key] == p.updatedInstances[i].changedProperties[key]
    ensures NoClears(q)
  {
    p.(removedInstances := [],
       updatedInstances := seq(|p.updatedInstances|, i requires 0 <= i < |p.updatedInstances| => KeepSets(p.updatedInstances[i])))
  }

  /** Filtering twice is filtering once. */
  lemma MergeFilteredIdempotent(p: PatchSetValue)
    ensures MergeFiltered(MergeFiltered(p)) == MergeFiltered(p)
  {
    var q := MergeFiltered(p);
    var r := MergeFiltered(q);
    forall i | 0 <= i < |q.updatedInstances|
      ensures r.updatedInstances[i] == q.updatedInstances[i]
    {
      assert r.updatedInstances[i].changedProperties == q.updatedInstances[i].changedProperties;
    }
  }

  /** The filter leaves a patch alone exactly when it removes nothing and
      clears nothing. */
  lemma MergeFilteredFixedPoints(p: PatchSetValue)
    ensures MergeFiltered(p) == p <==> p.removedInstances == [] && NoClears(p)
  {
    var q := MergeFiltered(p);
    if p.removedInstances == [] && NoClears(p) {
      forall i | 0 <= i < |p.updatedInstances|
        ensures q.updatedInstances[i] == p.updatedInstances[i]
      {
        assert q.updatedInstances[i].changedProperties == p.updatedInstances[i].changedProperties;
      }
    }
  }

  /** Lines 71-76 of `SyncCommand::run`: clear the removals, then strip the
      clears from each update, one update at a time. */
  method PreserveExisting(patchSet: PatchSet)
    modifies patchSet
    ensures patchSet.Value() == MergeFiltered(old(patchSet.Value()))
  {
    patchSet.removedInstances := [];
    var i := 0;
    while i < |patchSet.updatedInstances|
      invariant 0 <= i <= |patchSet.updatedInstances| == |old(patchSet.updatedInstances)|
      invariant patchSet.removedInstances == []
      invariant patchSet.addedInstances == old(patchSet.addedInstances)
      invariant forall j :: 0 <= j < i ==> patchSet.updatedInstances[j] == KeepSets(old(patchSet.updatedInstances[j]))
      invariant forall j :: i <= j < |patchSet.updatedInstances| ==> patchSet.updatedInstances[j] == old(patchSet.updatedInstances[j])
    {
      var update := patchSet.updatedInstances[i];
      patchSet.updatedInstances := patchSet.updatedInstances[i := update.(changedProperties := SetsOnly(update.changedProperties))];
      i := i + 1;
    }
  }

  // ---------------------------------------------------------------------
  // Model files

  /** The properties of `props` that are no longer pending. */
  function CopiedProperties(props: Properties, pending: set<string>): Properties
  {
    map key | key in props && key !in pending :: props[key]
  }

  /** The tree a model file is re-rooted to: its single top-level instance,
      named after its class, with, in order, the subtrees of its children. */
  function ModelTree(input: WfDom): Builder
    requires |input.instances[input.root].children| == 1
  {
    assert input.instances[input.root].children[0] in input.instances[input.root].children;
    var child := input.instances[input.instances[input.root].children[0]];
    ChildrenOfPresent(input, input.instances[input.root].children[0]);
    Builder(child.className, child.className, child.properties, Subtrees(input.instances, child.children))
  }

  /** What a model file reads as: a dom whose root has no parent and is a
      layout of `ModelTree(input)` (so every copied instance hangs under its
      copied parent), which holds nothing besides that layout, and which
      reads back as that tree. */
  ghost predicate ModelRootOf(input: WfDom, output: WfDom)
    requires |input.instances[input.root].children| == 1
  {
    && output.instances[output.root].parent == None
    && Embeds(output.instances, output.root, ModelTree(input))
    && (forall x :: x in output.instances ==> output.root <= x < output.root + Size(ModelTree(input)))
    && Extract(output.instances, output.root, {}) == ModelTree(input)
  }

  /** A re-rooted model holds exactly the refs of its layout. */
  lemma ModelRootOfExactly(input: WfDom, output: WfDom)
    requires |input.instances[input.root].children| == 1 && ModelRootOf(input, output)
    ensures forall x :: x in output.instances <==> output.root <= x < output.root + Size(ModelTree(input))
  {
    forall x | output.root <= x < output.root + Size(ModelTree(input))
      ensures x in output.instances
    {
      EmbedsCovers(output.instances, output.root, ModelTree(input), x);
    }
  }

  /** The outcome `process_model_dom` must have on `input`: a failure naming
      the number of top-level instances unless there is exactly one, and
      otherwise a tree re-rooted at that one. */
  ghost predicate ModelOutcome(input: WfDom, r: Result<WfDom, SyncError>)
  {
    var count := |input.instances[input.root].children|;
    if count != 1 then r == Err(UnsupportedModelRoot(count))
    else r.Ok? && ModelRootOf(input, r.value)
  }

  /** `process_model_dom`: re-roots a decoded model at its single top-level
      instance. */
  method ProcessModelDom(dom: WfDom) returns (r: Result<WfDom, SyncError>)
    ensures r.Err? <==> |dom.instances[dom.root].children| != 1
    ensures ModelOutcome(dom, r)
  {
    var tempChildren := dom.instances[dom.root].children;
    if |tempChildren| == 1 {
      assert tempChildren[0] in tempChildren;
      var realRoot := dom.instances[tempChildren[0]];
      var newTree := new WeakDom(realRoot.className);
      CopyRootProperties(newTree, realRoot.properties);
      assert map[] + realRoot.properties == realRoot.properties;
      var result := CloneUnderRoot(dom, newTree);
      r := Ok(result);
    } else {
      r := Err(UnsupportedModelRoot(|tempChildren|));
    }
  }

  /** The second half of `process_model_dom`: given the new root, which
      already carries the model's top instance's class and properties, clone
      that instance's children into the new dom and move each clone under the
      root. The result is the model re-rooted. */
  method CloneUnderRoot(dom: WfDom, tree: WeakDom) returns (result: WfDom)
    requires |dom.instances[dom.root].children| == 1
    requires tree.Valid() && tree.nextRef == tree.rootRef + 1
    requires var top := ModelTree(dom);
      tree.instances == map[tree.rootRef := Instance(top.name, top.className, top.properties, [], None)]
    modifies tree
    ensures tree.Valid() && result == tree.Value()
    ensures ModelRootOf(dom, result)
  {
    var tempChildren := dom.instances[dom.root].children;
    assert tempChildren[0] in tempChildren;
    var realRoot := dom.instances[tempChildren[0]];
    ChildrenOfPresent(dom, tempChildren[0]);
    var children := CloneMultipleIntoExternal(dom, realRoot.children, tree);
    AdoptAll(tree, children, Subtrees(dom.instances, realRoot.children));
    result := tree.Value();
    ReRooted(dom, result, children);
  }

  /** The loop of `process_model_dom` that copies every property of the
      model's top instance onto the new root, one insertion at a time, in
      any order: afterwards the root holds those properties over its own, and
      nothing else has changed. */
  method CopyRootProperties(tree: WeakDom, props: Properties)
    requires tree.Valid()
    modifies tree
    ensures tree.Valid() && tree.rootRef == old(tree.rootRef) && tree.nextRef == old(tree.nextRef)
    ensures tree.instances == old(tree.instances)[tree.rootRef :=
      old(tree.instances[tree.rootRef]).(properties := old(tree.instances[tree.rootRef].properties) + props)]
  {
    ghost var top := tree.instances[tree.rootRef];
    var pending := props.Keys;
    assert top.properties + CopiedProperties(props, pending) == top.properties;
    assert old(tree.instances)[tree.rootRef := top] == old(tree.instances);
    while pending != {}
      invariant tree.Valid() && tree.rootRef == old(tree.rootRef) && tree.nextRef == old(tree.nextRef)
      invariant tree.instances ==
        old(tree.instances)[tree.rootRef := top.(properties := top.properties + CopiedProperties(props, pending))]
      decreases pending
    {
      var name :| name in pending;
      tree.InsertRootProperty(name, props[name]);
      CopyOneMore(top.properties, props, pending, name);
      pending := pending - {name};
    }
    assert CopiedProperties(props, {}) == props;
  }

  /** The loop of `process_model_dom` that moves each detached clone, in
      order, under the new root: afterwards the root's children are exactly
      the clones, each clone's parent is the root, every clone keeps its
      layout, and every other instance is as it was. */
  method AdoptAll(tree: WeakDom, clones: seq<Ref>, ghost bs: seq<Builder>)
    requires tree.Valid() && tree.instances[tree.rootRef].children == []
    requires |clones| == |bs| && ClonedAs(tree.instances, clones, bs, tree.rootRef + 1, 0)
    modifies tree
    ensures tree.Valid() && tree.rootRef == old(tree.rootRef) && tree.nextRef == old(tree.nextRef)
    ensures tree.instances.Keys == old(tree.instances.Keys)
    ensures Adopted(tree.instances, tree.rootRef, old(tree.instances[tree.rootRef]), clones, bs, |clones|)
    ensures KeptOutside(old(tree.instances), tree.instances, tree.rootRef, clones)
  {
    ghost var top := tree.instances[tree.rootRef];
    assert clones[..0] == [];
    var i := 0;
    while i < |clones|
      invariant 0 <= i <= |clones|
      invariant tree.Valid() && tree.rootRef == old(tree.rootRef) && tree.nextRef == old(tree.nextRef)
      invariant tree.instances.Keys == old(tree.instances.Keys)
      invariant Adopted(tree.instances, tree.rootRef, top, clones, bs, i)
      invariant KeptOutside(old(tree.instances), tree.instances, tree.rootRef, clones)
    {
      ghost var before := tree.instances;
      assert clones[i] in before && before[clones[i]].parent == None;
      tree.TransferWithin(clones[i], tree.rootRef);
      AdoptedStep(before, tree.instances, tree.rootRef, top, clones, bs, i);
      i := i + 1;
    }
  }

  /** Every instance of `m` other than the root and the clones is the same in `m'`. */
  ghost predicate KeptOutside(m: map<Ref, Instance>, m': map<Ref, Instance>, root: Ref, clones: seq<Ref>)
  {
    forall x :: x in m && x != root && x !in clones ==> x in m' && m'[x] == m[x]
  }

  /** After `i` steps of the loop: the root is `top` with the first `i`
      clones as its children, those clones hang under it, the rest are still
      detached, and all keep their layouts. */
  ghost predicate Adopted(m: map<Ref, Instance>, root: Ref, top: Instance, clones: seq<Ref>, bs: seq<Builder>, i: nat)
  {
    && i <= |clones| == |bs|
    && root in m && m[root] == top.(children := clones[..i])
    && ClonedAs(m, clones, bs, root + 1, i)
    && forall j :: 0 <= j < i ==> m[clones[j]].parent == Some(root)
  }

  /** Moving the `i`th clone under the root takes the loop one step further:
      no other clone's range holds the moved clone or the root. */
  lemma AdoptedStep(m: map<Ref, Instance>, m': map<Ref, Instance>, root: Ref, top: Instance,
                    clones: seq<Ref>, bs: seq<Builder>, i: nat)
    requires Adopted(m, root, top, clones, bs, i) && i < |clones|
    requires m.Keys == m'.Keys
    requires m'[clones[i]] == m[clones[i]].(parent := Some(root))
    requires m'[root] == m[root].(children := m[root].children + [clones[i]])
    requires forall x :: x in m && x != clones[i] && x != root ==> m'[x] == m[x]
    ensures Adopted(m', root, top, clones, bs, i + 1)
  {
    var lo := root + 1;
    assert m[clones[i]].parent == None;
    assert clones[..i + 1] == clones[..i] + [clones[i]];
    forall j | 0 <= j < |clones|
      ensures CloneAt(m', clones, bs, lo, j)
    {
      assert CloneAt(m, clones, bs, lo, j);
      if j < i {
        SeqSizeStep(bs, j);
        SeqSizeMono(bs, j + 1, i);
      } else if j > i {
        SeqSizeStep(bs, i);
        SeqSizeMono(bs, i + 1, j);
      }
      EmbedsFrame(m, m', clones[j], bs[j]);
    }
    forall j | 0 <= j < |clones| && j != i
      ensures m'[clones[j]] == m[clones[j]]
    {
      if j < i {
        SeqSizeStep(bs, j);
        SeqSizeMono(bs, j + 1, i);
      } else {
        SeqSizeStep(bs, i);
        SeqSizeMono(bs, i + 1, j);
      }
    }
  }

  lemma CopyOneMore(own: Properties, props: Properties, pending: set<string>, name: string)
    requires name in pending && name in props
    ensures (own + CopiedProperties(props, pending))[name := props[name]] == own + CopiedProperties(props, pending - {name})
  {
  }

  lemma ChildrenOfPresent(dom: WfDom, r: Ref)
    requires r in dom.instances
    ensures forall i :: 0 <= i < |dom.instances[r].children| ==> dom.instances[r].children[i] in dom.instances
  {
    forall i | 0 <= i < |dom.instances[r].children|
      ensures dom.instances[r].children[i] in dom.instances
    {
      assert dom.instances[r].children[i] in dom.instances[r].children;
    }
  }

  /** A root without parent that carries the model's class and properties,
      whose children are the clones of the model's children, now hanging
      under it, in a dom holding nothing else, reads as the model re-rooted. */
  lemma ReRooted(input: WfDom, output: WfDom, clones: seq<Ref>)
    requires |input.instances[input.root].children| == 1
    requires var tree := ModelTree(input);
      && Adopted(output.instances, output.root, Instance(tree.name, tree.className, tree.properties, [], None),
                 clones, tree.children, |clones|)
      && (forall x :: x in output.instances ==> output.root <= x < output.root + 1 + SeqSize(tree.children))
    ensures ModelRootOf(input, output)
  {
    var tree := ModelTree(input);
    assert clones[..|clones|] == clones;
    forall j | 0 <= j < |clones|
      ensures ChildLaidOut(output.instances, output.root, tree, j)
    {
      assert CloneAt(output.instances, clones, tree.children, output.root + 1, j);
      ChildrenSizeIsSeqSize(tree, j);
    }
    ChildrenSizeIsSeqSize(tree, |clones|);
    assert tree.children[..|clones|] == tree.children;
    assert Embeds(output.instances, output.root, tree);
    EmbeddedExtracts(output.instances, output.root, tree, {});
  }

  // ---------------------------------------------------------------------
  // Reading and writing files

  /** `read_dom`: decodes the input with its kind's codec and, for a model
      kind only, re-roots it with `process_model_dom`. `content` is the
      input file's bytes, or nothing when it cannot be opened; `decode` stands
      for the two codec libraries. */
  method ReadDom(content: Option<Bytes>, kind: FileKind, decode: (Codec, Bytes) -> Option<WfDom>)
    returns (r: Result<WfDom, SyncError>)
    ensures content.None? ==> r == Err(InputOpenFailed)
    ensures content.Some? && decode(CodecOf(kind), content.value).None? ==> r == Err(DecodeFailed(kind))
    ensures content.Some? && decode(CodecOf(kind), content.value).Some? && !IsModel(kind) ==>
      r == Ok(decode(CodecOf(kind), content.value).value)
    ensures content.Some? && decode(CodecOf(kind), content.value).Some? && IsModel(kind) ==>
      ModelOutcome(decode(CodecOf(kind), content.value).value, r)
  {
    if content.None? {
      return Err(InputOpenFailed);
    }
    var bytes := content.value;
    match kind
    case Rbxl =>
      var decoded := decode(Binary, bytes);
      r := if decoded.None? then Err(DecodeFailed(kind)) else Ok(decoded.value);
    case Rbxlx =>
      var decoded := decode(Xml, bytes);
      r := if decoded.None? then Err(DecodeFailed(kind)) else Ok(decoded.value);
    case Rbxm =>
      var decoded := decode(Binary, bytes);
      if decoded.None? {
        r := Err(DecodeFailed(kind));
      } else {
        r := ProcessModelDom(decoded.value);
      }
    case Rbxmx =>
      var decoded := decode(Xml, bytes);
      if decoded.None? {
        r := Err(DecodeFailed(kind));
      } else {
        r := ProcessModelDom(decoded.value);
      }
  }

  /** The input decodes with its kind's codec and, for a model kind, holds a
      single top-level instance. */
  ghost predicate Readable(content: Option<Bytes>, kind: FileKind, decode: (Codec, Bytes) -> Option<WfDom>)
  {
    && content.Some?
    && decode(CodecOf(kind), content.value).Some?
    && (IsModel(kind) ==> |decode(CodecOf(kind), content.value).value.instances[decode(CodecOf(kind), content.value).value.root].children| == 1)
  }

  /** `tree` is what `read_dom` makes of a readable input: the decoded tree
      itself for a place, the decoded model re-rooted for a model. */
  ghost predicate ReadAs(content: Option<Bytes>, kind: FileKind, decode: (Codec, Bytes) -> Option<WfDom>, tree: WfDom)
    requires Readable(content, kind, decode)
  {
    var decoded := decode(CodecOf(kind), content.value).value;
    if IsModel(kind) then ModelRootOf(decoded, tree) else tree == decoded
  }

  /** The result of an encoder call. */
  function Encoded(codec: Codec, bytes: Option<Bytes>): Result<Bytes, SyncError>
  {
    if bytes.None? then Err(EncodeFailed(codec)) else Ok(bytes.value)
  }

  /** `write_tree_to_file`: encodes the tree with the output kind's codec. A
      model is written as its root instance; a place as the root's children.
      `canCreate` says whether the output file can be created; `encode`
      stands for the two codec libraries. */
  function WriteTreeToFile(tree: WfDom, kind: FileKind, canCreate: bool,
                           encode: (Codec, Dom, seq<Ref>) -> Option<Bytes>): (r: Result<Bytes, SyncError>)
    ensures !canCreate ==> r == Err(OutputCreateFailed)
    ensures canCreate ==> r == Encoded(CodecOf(kind), encode(CodecOf(kind), tree,
      if IsModel(kind) then [tree.root] else tree.instances[tree.root].children))
  {
    if !canCreate then Err(OutputCreateFailed)
    else match kind
      case Rbxm => Encoded(Binary, encode(Binary, tree, [tree.root]))
      case Rbxl => Encoded(Binary, encode(Binary, tree, tree.instances[tree.root].children))
      case Rbxmx => Encoded(Xml, encode(Xml, tree, [tree.root]))
      case Rbxlx => Encoded(Xml, encode(Xml, tree, tree.instances[tree.root].children))
  }

  // ---------------------------------------------------------------------
  // The command

  /** `SyncCommand::run`. The collaborators whose workings lie outside this
      model are parameters: `project` is the project's snapshot, or nothing
      when loading it fails; `content` the input file's bytes, or nothing
      when it cannot be opened; `computePatchSet` and `applyPatchSet` the
      diff and the patch application; `canCreate` whether the output file can
      be created. The result is the bytes written to the output file; the
      ghost results are the tree read from the input and the patch applied
      to it. */
  method Run(input: OsStr, output: OsStr,
             project: Option<InstanceSnapshot>,
             content: Option<Bytes>,
             decode: (Codec, Bytes) -> Option<WfDom>,
             computePatchSet: (InstanceSnapshot, Dom) -> PatchSetValue,
             applyPatchSet: (Dom, PatchSetValue) -> WfDom,
             canCreate: bool,
             encode: (Codec, Dom, seq<Ref>) -> Option<Bytes>)
    returns (r: Result<Bytes, SyncError>, ghost tree: WfDom, ghost applied: PatchSetValue)
    ensures FromPath(input).None? ==> r == Err(UnknownInputKind)
    ensures FromPath(input).Some? && FromPath(output).None? ==> r == Err(UnknownOutputKind)
    ensures FromPath(input).Some? && FromPath(output).Some? && project.None? ==> r == Err(ProjectLoadFailed)
    ensures FromPath(input).Some? && FromPath(output).Some? && project.Some? && content.None? ==>
      r == Err(InputOpenFailed)
    ensures (FromPath(input).Some? && FromPath(output).Some? && project.Some? && content.Some? &&
             decode(CodecOf(FromPath(input).value), content.value).None?) ==>
      r == Err(DecodeFailed(FromPath(input).value))
    ensures (FromPath(input).Some? && FromPath(output).Some? && project.Some? && content.Some? &&
             decode(CodecOf(FromPath(input).value), content.value).Some? && IsModel(FromPath(input).value) &&
             !Readable(content, FromPath(input).value, decode)) ==>
      r == Err(UnsupportedModelRoot(|decode(CodecOf(FromPath(input).value), content.value).value.instances[
                                      decode(CodecOf(FromPath(input).value), content.value).value.root].children|))
    ensures (FromPath(input).Some? && FromPath(output).Some? && project.Some? &&
             Readable(content, FromPath(input).value, decode)) ==>
      && ReadAs(content, FromPath(input).value, decode, tree)
      && applied == MergeFiltered(computePatchSet(project.value, tree))
      && r == WriteTreeToFile(applyPatchSet(tree, applied), FromPath(output).value, canCreate, encode)
  {
    tree := Dom(map[0 := Instance("", "", map[], [], None)], 0);
    applied := PatchSetValue([], [], []);

    var inputKind := FromPath(input);
    if inputKind.None? {
      r := Err(UnknownInputKind);
      return;
    }
    var outputKind := FromPath(output);
    if outputKind.None? {
      r := Err(UnknownOutputKind);
      return;
    }
    if project.None? {
      r := Err(ProjectLoadFailed);
      return;
    }
    var desired := project.value;

    var domOld := ReadDom(content, inputKind.value, decode);
    if domOld.Err? {
      r := Err(domOld.error);
      return;
    }
    tree := domOld.value;

    var patchSet := new PatchSet(computePatchSet(desired, domOld.value));
    PreserveExisting(patchSet);
    applied := patchSet.Value();

    var treeNew := applyPatchSet(domOld.value, patchSet.Value());
    r := WriteTreeToFile(treeNew, outputKind.value, canCreate, encode);
  }
}
