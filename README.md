# rojo sync, modelled in Dafny

`rojo sync` merges a Rojo project into an existing Roblox place or model
file. It works in five steps:

1. It works out the input and output file kinds from their extensions
   (`.rbxl`, `.rbxlx`, `.rbxm`, `.rbxmx`).
2. It loads the project, then reads the input file with the binary or XML
   codec. A model file is re-rooted at its single top-level instance.
3. It diffs the project against that tree. It then strips the patch of
   every instance removal and every property clear, so that nothing already
   in the file is lost.
4. It applies the filtered patch.
5. It writes the result in the output kind: a model as its root instance,
   a place as the root's children.

The model has five modules:

- `Wrappers`: `Option` and `Result`.
- `Paths`: operating-system path strings, and the file-name and extension
  rules of Rust's `std::path::Path`, on which `FileKind::from_path`
  depends. Separators are Unix `/`. A unit is a character, or a raw byte
  that is not valid UTF-8.
- `Dom`: the arena of instances that the codecs produce. It has a value
  form, `Dom`, and a mutable form, the class `WeakDom`. The class's
  methods are creating a dom around a root, setting a root property,
  inserting a detached tree, and `transfer_within`. The module-level method
  `CloneMultipleIntoExternal` copies subtrees of a `Dom` value into a
  `WeakDom` as detached trees. Trees are stated in two ways:
  - `Extract` reads the tree below a ref back as an `InstanceBuilder`-like
    value.
  - `Embeds` says where a tree is laid out: in pre-order, at consecutive
    refs, with every child's parent link pointing at its parent.
- `Patch`: the patch set (removed refs, added snapshots, per-instance
  updates whose property deltas are `Some(value)` to set or `None` to
  clear). It has a value form and a class form that the command edits in
  place.
- `Sync`: `src/cli/sync.rs` itself. It contains:
  - `FileKind::from_path`
  - the merge-policy filter, both as a function (`MergeFiltered`) and as
    the in-place loop of `SyncCommand::run` (`PreserveExisting`)
  - `process_model_dom`
  - the codec and root-set dispatch of `read_dom` and `write_tree_to_file`
  - `SyncCommand::run`, whose external collaborators are parameters

## Model

| member | source | states |
|---|---|---|
| Paths.FileName | src/cli/sync.rs:96 | The file name of a path is non-empty, free of separators, and never `.` or `..`. |
| Paths.FileNameSkipsSeparator | src/cli/sync.rs:96 | A trailing separator does not change the file name. |
| Paths.FileNameSkipsCurrentDir | src/cli/sync.rs:96 | A trailing `.` component does not change the file name, so `.` alone has none. |
| Paths.FileNameOfParentDir | src/cli/sync.rs:96 | A path ending in a `..` component has no file name. |
| Paths.FileNameIsLastComponent | src/cli/sync.rs:96 | A file name is the last normal component of the path: a whole component, followed only by separators and `.` units. |
| Paths.Extension | src/cli/sync.rs:96 | A path has an extension exactly when its file name has a dot after its first unit. The extension is then what follows the name's last dot, with a non-empty stem before that dot. It contains no dot and no separator. |
| Paths.ToStr | src/cli/sync.rs:96 | An OS string converts to text exactly when every unit is a character, and the text spells those characters. |
| Paths.ToStrOsString | src/cli/sync.rs:96 | Text written out as an OS string converts back to that same text. |
| Paths.ExtensionOfAppended | src/cli/sync.rs:96 | Appending `.` and a non-empty suffix with no dot or separator to a non-empty path not ending in `/` makes that suffix the path's extension. |
| Sync.KindOfExtension | src/cli/sync.rs:98-104 | An extension string names kind `k` if and only if it is exactly `k`'s extension. Any other string names no kind. |
| Sync.FromPath | src/cli/sync.rs:95-105 | `from_path` gives kind `k` if and only if the path's extension is exactly `k`'s extension. So a missing extension, a non-UTF-8 extension, or any other extension gives none. |
| Sync.NonUtf8ExtensionRejected | src/cli/sync.rs:96 | A path whose extension holds a non-UTF-8 byte has no kind. |
| Sync.FromPathOfNamedFile | src/cli/sync.rs:95-105 | Any non-empty stem not ending in `/`, followed by `.` and a kind's extension, is classified as that kind. |
| Sync.CodecOf | src/cli/sync.rs:118-142 | The XML codec is chosen exactly for the kinds whose extension ends in `x`. The binary codec is used for `.rbxl` and `.rbxm`. |
| Sync.IsModel | src/cli/sync.rs:127-142 | The model kinds are exactly those whose extension begins `rbxm`. |
| Sync.SetsOnly | src/cli/sync.rs:73-75 | The retain keeps a key if and only if its delta is `Some`, at its value. |
| Sync.MergeFiltered | src/cli/sync.rs:71-76 | The filtered patch has these properties: no removals; additions unchanged; the same number of updates, in order, each with the same id, name change and class change. A property key stays if and only if its delta was `Some`, with its value unchanged. No update clears anything afterwards. |
| Sync.MergeFilteredIdempotent | src/cli/sync.rs:71-76 | Filtering twice is the same as filtering once. |
| Sync.MergeFilteredFixedPoints | src/cli/sync.rs:71-76 | The filter leaves a patch unchanged if and only if the patch removes nothing and clears nothing. |
| Sync.PreserveExisting | src/cli/sync.rs:71-76 | Clearing the removals in place and then running `retain` on each update leaves the patch set equal to `MergeFiltered` of its old value. |
| Dom.WeakDom.constructor | src/cli/sync.rs:150 | A new dom holds one instance: class `className`, named after its class, with no properties, no children and no parent. |
| Dom.WeakDom.InsertRootProperty | src/cli/sync.rs:151-156 | Only the root's property map changes, and only at one key, which gets the given value. |
| Dom.WeakDom.Insert | src/cli/sync.rs:158 | Inserting a builder tree lays it out in pre-order at the next `Size(b)` fresh refs. Every inserted child's parent is its inserted parent, and the tree reads back as the one inserted. The only existing instance that changes is the parent, which gains the new ref as its last child. |
| Dom.WeakDom.InsertChildren | src/cli/sync.rs:158 | The child trees are laid out in order after their parent's instance. No other existing instance changes. |
| Dom.CloneMultipleIntoExternal | src/cli/sync.rs:158 | Each listed subtree of the source is copied, in order, as a detached tree laid out right after the previous copy. Nothing already in the destination changes, and nothing else is added. |
| Dom.EmbeddedExtracts | src/cli/sync.rs:158 | A laid-out subtree reads back exactly as the tree that was inserted. |
| Dom.EmbedsCovers | src/cli/sync.rs:158 | A layout fills its range: every ref from its top up to its top plus its size is present. |
| Dom.WeakDom.TransferWithin | src/cli/sync.rs:160 | The instance becomes the last child of the destination and leaves its former parent's children. Its own parent becomes the destination. No other instance changes. |
| Sync.CopyRootProperties | src/cli/sync.rs:151-156 | After inserting the properties one at a time, in any order, the root holds them over its own properties. Nothing else changes. |
| Sync.CloneUnderRoot | src/cli/sync.rs:158-162 | Suppose the new dom holds only a parentless root with the top instance's class and properties. Then cloning that instance's children into the dom and moving each clone under the root yields the model re-rooted, holding nothing else. The dom returned is the new dom itself, left valid. |
| Sync.AdoptAll | src/cli/sync.rs:159-161 | After transferring every clone to the root, the root's children are exactly the clones, in order. Each clone's parent is the root, each clone keeps its copied subtree, and every other instance is unchanged. |
| Sync.AdoptedStep | src/cli/sync.rs:160 | Moving one clone under the root leaves every other clone's layout intact, because no other clone's range holds the moved clone or the root. |
| Sync.ReRooted | src/cli/sync.rs:149-162 | Suppose a parentless root carries the child's class and properties, its children are the clones of the child's children now hanging under it, each keeping its layout, and the dom holds nothing else. Then the dom is the model re-rooted. |
| Sync.ModelRootOfExactly | src/cli/sync.rs:149-162 | A re-rooted model holds exactly the refs of its layout: the new root and the copies, and nothing else. |
| Sync.ProcessModelDom | src/cli/sync.rs:146-168 | Fails, naming the count, if and only if the root does not have exactly one child; zero and two or more both fail. On success, the new root is parentless and named after the child's class. It has the child's class and properties. Its children are copies of the child's subtrees, in order, each re-parented onto it, and the dom holds nothing else. |
| Sync.ReadDom | src/cli/sync.rs:116-144 | The method checks the following in order. An unopenable input fails before decoding. A decoding failure names the kind. A place is returned exactly as decoded. A model goes through `process_model_dom`. |
| Sync.WriteTreeToFile | src/cli/sync.rs:170-204 | If the file cannot be created, the write fails before encoding. Otherwise the tree is encoded with the kind's codec. A model kind writes `[root]` and a place kind writes the root's children. |
| Sync.Run | src/cli/sync.rs:46-83 | The checks run in this order: unknown input kind, unknown output kind, project load, input open, decode, model root count. Otherwise the tree read from the input gets `MergeFiltered` of the computed patch, and that result is what gets written in the output kind. |

## Left out

- `src/lib.rs` (the napi bindings and logger setup) is not part of this model. It is glue with no logic of its own.
- The binary and XML codecs are not part of this model. Decoding and encoding are parameters that may fail (`decode`, `encode`).
- File open, create, flush, buffering and the `Vfs` are I/O. An unopenable input is an absent `content`, and an uncreatable output is `canCreate == false`.
- Project loading, `snapshot_from_vfs`, `compute_patch_set` and `apply_patch_set` are not part of this model. They are parameters of `Sync.Run`, and project loading success is an `Option` of the snapshot.
- The conversion of the read tree to a `RojoTree` (`InstanceSnapshot::from_tree`) is not modelled. The diff is given the `Dom` directly.
- clap parsing and `resolve_path` are command-line plumbing.
- Error texts and `anyhow` context are not modelled. Errors are a datatype that says which check failed. The source's message for a rejected model mentions "more than one Instance" even when there are none; only the count is modelled.
- Paths.ToStr: an `OsStr` is taken in canonical form, with every valid UTF-8 run written as characters; the type does not enforce this, and on a valid run spelled as `Byte` units `ToStr` gives none where `OsStr::to_str` would succeed.
- Paths.FileName and Paths.Extension: only Unix separators are modelled. Windows prefixes and `\` are not.
- rbx_dom_weak is not part of this model. `Dom` restates the behaviour `process_model_dom` relies on:
  - refs are handed out by a counter, not at random, so each inserted tree occupies consecutive refs in pre-order; rbx_dom_weak promises only fresh refs;
  - instances have no property values beyond a few `Variant` kinds;
  - when subtrees are cloned into another dom, properties that refer to other cloned instances are not rewritten.
- `Extract` skips a child that is missing or already on the path above it. Neither can happen in a dom the codecs produce; the skip only makes the read-back total.
- Patch updates carry no metadata changes. The filter never touches them.
- Sync.ProcessModelDom: the order in which the root properties are copied is arbitrary (the source iterates a hash map). Only the final property map is stated.
