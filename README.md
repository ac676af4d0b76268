# pyshark provenance core, in Dafny

pyshark records the lineage of the files a Python program reads and writes.
A process-wide `Manifest` does the work:

- It collects every input file as a `FileRef`: an absolute path, a SHA-1 digest or `"unknown"`, and any lineage already attached to the file.
- It collects every output path.
- It keeps a descriptor cache that maps open file descriptors to what they were opened for.
- It keeps a stack of `(inputs, outputs)` snapshots for nested scopes.
- It shares a fixed-size buffer with forked children. The buffer starts with an 8-byte length prefix, followed by that many bytes of serialised `FileRef`s. Children merge their inputs into the buffer, and the root merges the buffer back into its own inputs.

When an output is closed, or when the program ends, the manifest builds a lineage document from its inputs and outputs. It stores the document on each output as the `user.shark` extended attribute. If the attribute cannot be set, it writes a hidden side file `dir/.name.shark` instead.

The viewer `utils/graph.py` works the other way. It reads that lineage back, the attribute first and then the side file. It then walks the nested "inputs" tree and draws one node per input, with an edge to the node that used it.

The model is organised as follows:

- `Paths` covers `os.path.split` and `os.path.join`, plus the side-file naming rule.
- `FileRefs` holds `FileRef` and its dictionary form.
- `Codec` defines the buffer's byte layout and an encoding of the reference list that provably round-trips.
- `SharedMemory` models the shared buffer as a `Region` class over an `array<byte>`.
- `Disks` models the part of the file system the core touches: files, attributes and side-file texts. It also gives the fixed outcomes of hashing and writing.
- `Manifests` holds the `Manifest` class, with one method per operation of the source.
- `Graph` holds `plot`, as a method over a `Digraph` accumulator that is proved equal to a recursive `Walk` function, and `main`'s lookup order.
- `PyRepr` holds what Python's `str()` makes of a `bytes` value; it is needed for the first finding.

## Model

| member | source | states |
|---|---|---|
| Paths.SideFileName | pyshark/manifest.py:58-61 | definition of `side_file_name`; specified by `Paths.SplitSideFileName` |
| Disks.Lineage | pyshark/manifest.py:82-91 | definition of the lineage lookup, attribute first, then side file (also utils/graph.py:34-44); specified by `Disks.Persist` and `Manifests.Manifest.AppendInput` |
| Codec.Serialise | pyshark/manifest.py:139 | definition of the payload encoding; specified by `Codec.DeserialiseSerialise` and `Codec.SerialiseSize` |
| Codec.Deserialise | pyshark/manifest.py:133 | definition of the payload decoding; specified by `Codec.DeserialiseSerialise` |
| Codec.FlushAsWritten | pyshark/manifest.py:139-141 | definition of `child_flush`'s writes as the source orders them; specified by `Codec.AsWrittenOverflowCorrupts` |
| Graph.WalkFrom | utils/graph.py:8-22 | definition of what `plot` draws and how it ends; specified by `Graph.WalkFromComplete`, `Graph.WalkFromEdges` and `Graph.WalkFromRooted`, and implemented by `Graph.Plot` |
| Graph.NestedTrace | utils/graph.py:18-22 | definition of the nested call for a record's "history"; specified with `Graph.WalkFrom` |
| PyRepr.AttributeHistoryAsWritten | pyshark/manifest.py:84 | definition of the history line 84 records; specified by `PyRepr.AttributeHistoryIsNotTheDocument` |
| Paths.SplitSideFileName | pyshark/manifest.py:58-61 | splitting the side-file name of `p` gives back `p`'s directory and the basename `f` turned into `.f.shark` |
| Paths.SideFileNameExample | pyshark/manifest.py:58-61 | `/data/out.csv` gets the side file `/data/.out.csv.shark` |
| Paths.SplitExample | pyshark/manifest.py:60 | `os.path.split("/data/out.csv")` is `("/data", "out.csv")`; the head loses its trailing slash |
| Paths.AfterLastSlash | pyshark/manifest.py:60 | the split point of a path has a '/' just before it and none after it |
| Paths.StripTrailingSlashes | pyshark/manifest.py:60 | the head of a split is a prefix of the path with trailing slashes removed |
| Paths.AfterLastSlashAppend | pyshark/manifest.py:60 | appending a slash-free component to a path that ends in '/' moves the split point to the end of that path |
| FileRefs.ToDict | pyshark/manifest.py:27-31 | the dictionary has "path" and "sha", has "history" exactly when the reference has a history, and `from_dict` reads it back as the same reference |
| FileRefs.FromDict | pyshark/manifest.py:33-35 | a reference is returned exactly when "path" and "sha" are present; otherwise the `KeyError` case |
| FileRefs.ToDictFromDict | pyshark/manifest.py:27-35 | every dictionary with a reference's keys is `to_dict` of its `from_dict` |
| FileRefs.ToDictInjective | pyshark/manifest.py:18-31 | two references with the same dictionary are equal |
| Codec.UnpackPack | pyshark/manifest.py:130 | unpacking an 8-byte prefix packed from `n` gives `n` |
| Codec.PackUnpack | pyshark/manifest.py:130 | packing the unpacked value of any prefix gives back its bytes |
| Codec.Pow256Prefix | pyshark/manifest.py:51 | an 8-byte prefix holds every length below 2^64 |
| Codec.DecodeEncodeChar | pyshark/manifest.py:139 | each character's encoding decodes back to that character |
| Codec.DecodeEncodeString | pyshark/manifest.py:139 | a string's encoding decodes back to the string and leaves the following bytes unread |
| Codec.DecodeEncodeDict | pyshark/manifest.py:139 | a reference dictionary's encoding decodes back to it and leaves the following bytes unread |
| Codec.DecodeHistory | pyshark/manifest.py:133 | a successful decode consumes bytes and yields a reference dictionary |
| Codec.DecodeEncodeDicts | pyshark/manifest.py:133-139 | the encoding of a list of dictionaries decodes back to the list |
| Codec.Dicts | pyshark/manifest.py:139 | the list of `to_dict` forms has one dictionary per reference, in order |
| Codec.FromDictsDicts | pyshark/manifest.py:136-139 | `from_dict` of each `to_dict` form gives back the reference list |
| Codec.DeserialiseSerialise | pyshark/manifest.py:133-139 | deserialising the payload of a reference list gives back that list |
| Codec.SerialiseSize | pyshark/manifest.py:139 | a payload is as long as the sum of its references' encoded sizes |
| Codec.SumOfConcat | pyshark/manifest.py:139 | the size of a concatenation is the sum of the sizes of its parts |
| Codec.SumOfRemove | pyshark/manifest.py:139 | removing one element subtracts that element's size |
| Codec.RemoveAt | pyshark/manifest.py:136-138 | removing one element of a duplicate-free list removes exactly that element from its set |
| Codec.SumOfSameSet | pyshark/manifest.py:136-139 | two duplicate-free lists of the same set have the same total size |
| Codec.SerialiseSizeOfSameSet | pyshark/manifest.py:136-139 | the payload size of a set does not depend on the order it is iterated in |
| Codec.WrittenStores | pyshark/manifest.py:139-141 | after the prefix `len(raw)` and then `raw` are written, the buffer is well-formed, its prefix is `len(raw)` and it holds exactly the listed references |
| Codec.AsWrittenOverflowCorrupts | pyshark/manifest.py:139-141 | as written, a payload larger than the buffer raises after the prefix was changed, and leaves a prefix that claims more bytes than the buffer has |
| SharedMemory.CopyInto | pyshark/manifest.py:140-141 | a slice assignment replaces exactly the bytes of the slice |
| SharedMemory.Region.constructor | pyshark/manifest.py:49-51 | a fresh buffer of the requested capacity with a zero prefix, which holds no references |
| SharedMemory.Region.Read | pyshark/manifest.py:129-136 | the set decoded from the buffer is its contents, and empty when the prefix is 0 |
| SharedMemory.Region.Write | pyshark/manifest.py:139-141 | the buffer becomes the prefix and then the payload, with the prefix equal to the payload length and the contents equal to the listed set |
| Disks.Persist | pyshark/manifest.py:219-235 | a missing file is left alone; otherwise the attribute is tried first; the side file is written only when the attribute is refused; when the file exists and either its attribute can be set, or its side file can be written and it has no attribute yet (`Reaches`), the document is what `Lineage` (attribute first, then side file, the order of utils/graph.py:34-44 and of pyshark/manifest.py:82-91 with line 84 corrected) reads back for that file; a side file written beside a file that keeps an older attribute is shadowed by that attribute |
| Disks.PersistKeepsLineage | pyshark/manifest.py:219-235 | saving a document on one file leaves another file that already carries the same document carrying it |
| Disks.PersistLeavesOthers | pyshark/manifest.py:219-235 | saving on one file leaves the lineage of every other file whose side file is a different one unchanged, whatever it was |
| Disks.PersistAllKeepsLineage | pyshark/manifest.py:237-240 | saving a document on other files leaves a file that already carries that document carrying it |
| Disks.PersistAllLeavesOthers | pyshark/manifest.py:237-240 | saving on a list of files leaves the lineage of a file that is not in the list, and shares no side file with it, unchanged |
| Disks.PersistAllReachesEach | pyshark/manifest.py:237-240 | after `save`, every output that exists and either accepts the attribute, or has no attribute yet and a writable side file (`Reaches`), carries the document as its lineage |
| Disks.Disk.constructor | pyshark/manifest.py:219-235 | the file system and outcomes the model runs against |
| Manifests.Enumerate | pyshark/manifest.py:199 | iterating a set visits each element exactly once |
| Manifests.Manifest.Root | pyshark/manifest.py:40-56 | the root starts with empty inputs, outputs, cache and stack, and a fresh, empty 128 MiB region |
| Manifests.Manifest.Child | pyshark/manifest.py:40-42 | a forked process starts with a copy of the state and shares the region |
| Manifests.Manifest.AppendInput | pyshark/manifest.py:63-95 | a non-string name or the lock file changes nothing; a path already recorded changes nothing and returns the path; a file that cannot be opened raises and changes nothing; otherwise exactly one new reference (digest or "unknown", lineage from attribute then side file) is added and registered under the descriptor, and `UniquePaths` is preserved |
| Manifests.Manifest.AppendOutput | pyshark/manifest.py:97-106 | a non-string name or the lock file changes nothing; otherwise the absolute path is added to the outputs and registered under the descriptor |
| Manifests.Manifest.Generate | pyshark/manifest.py:195-217 | a document exists iff every output can be hashed; it then lists one dictionary per input and every output with its digest |
| Manifests.Manifest.SaveToFile | pyshark/manifest.py:219-235 | the file system becomes `Persist` of the old one |
| Manifests.Manifest.CloseFd | pyshark/manifest.py:108-118 | an unknown descriptor is a no-op; an input's descriptor is only dropped; a pending output's descriptor gets the generated document saved once on it, the output removed and the descriptor dropped; if generating raises, nothing changes |
| Manifests.Manifest.Snapshot | pyshark/manifest.py:120-121 | pushes the current inputs and outputs |
| Manifests.Manifest.Restore | pyshark/manifest.py:123-124 | pops the last snapshot into inputs and outputs; on an empty stack, nothing changes |
| Manifests.Manifest.ScopeRoundTrip | pyshark/manifest.py:120-124 | a snapshot followed by a restore leaves inputs, outputs and stack unchanged |
| Manifests.Manifest.NestedScopes | pyshark/manifest.py:120-124 | nested scopes unwind last in, first out |
| Manifests.Manifest.ChildFlush | pyshark/manifest.py:126-141 | the payload is the serialisation of the previous contents together with the local inputs; if it does not fit, nothing is written; otherwise the prefix is its length and the region holds that union |
| Manifests.Manifest.SavedLineageIsRecorded | pyshark/manifest.py:82-91 | a document `_save_to_file` (lines 219-235) saved on an existing file whose attribute can be set, or whose side file can be written and which has no attribute yet (`Reaches`), is the history a later `append_input` of that file records (with line 84 corrected) |
| Manifests.Manifest.ChildFlushTwice | pyshark/manifest.py:126-141 | a second flush after a successful one also succeeds, and leaves the same set |
| Manifests.Manifest.ParentFlush | pyshark/manifest.py:143-152 | in the root, the region's contents are unioned into the inputs (nothing when the prefix is 0); elsewhere, nothing changes |
| Manifests.Manifest.Save | pyshark/manifest.py:237-240 | one document is generated and saved on every output, once each, in iteration order; if generating raises, nothing is written |
| Manifests.Manifest.Close | pyshark/manifest.py:242-250 | the region is dropped, and the root unlinks it |
| Manifests.ForkMerge | pyshark/manifest.py:126-152 | the root always merges; after a child's successful flush, the root's inputs become exactly its old inputs, the region's old contents and the child's inputs; after an overflow, only the region's old contents are added; the child's inputs do not change |
| Graph.PreorderFrom | utils/graph.py:8-22 | every record of the list is in the preorder, which starts with the first record |
| Graph.WalkFromComplete | utils/graph.py:8-22 | on a tree where every record is drawable, the walk ends normally and draws exactly one node per record of the nested tree, in preorder |
| Graph.WalkComplete | utils/graph.py:8-22 | the same, from the top level |
| Graph.DrawsAttach | utils/graph.py:14-22 | a record's node, then its nested drawing, then the rest, draws the record, then its nested records, then the rest |
| Graph.WalkFromRooted | utils/graph.py:14-20 | on every tree, including walks that raise part-way, every node drawn gets exactly one edge, at its own position, leading from it to the upstream node or to a node drawn before it |
| Graph.RootedAttach | utils/graph.py:14-20 | a node with its edge to `up`, followed by a drawing rooted at that node and one rooted at `up`, is rooted at `up` |
| Graph.NestedLeadsBack | utils/graph.py:18-20 | an edge of a nested drawing leads to its parent's node or to a nested node drawn before it |
| Graph.RestLeadsBack | utils/graph.py:9-16 | an edge drawn later in the loop leads to `up` or to a node drawn before it |
| Graph.WalkRooted | utils/graph.py:14-20 | the same, from the top level |
| Graph.ParentIdsFrom | utils/graph.py:16-20 | assigns every record of the preorder one parent id: `upstream` for the records of the list, the node id of the record whose "history" holds it for a nested one |
| Graph.EdgesToAttach | utils/graph.py:15-20 | a node with its edge to `up`, followed by drawings whose edges lead to their given parents, has every edge leading to the parent `[up] + nested + rest` gives |
| Graph.WalkFromEdges | utils/graph.py:14-20 | on a tree whose every record is drawable, the edge drawn with each node leads from that node to exactly its parent: the given upstream for the records of the list, the node of the enclosing record for nested records |
| Graph.WalkEdges | utils/graph.py:14-20 | the same, from the top level |
| Graph.NestedKeyErrorIsCaught | utils/graph.py:18-22 | a nested record with neither "path" nor "url" ends only the nested loop; the parent's next sibling is still drawn |
| Graph.BasenameExample | utils/graph.py:11 | the label of `/d/x.csv` is `x.csv` |
| Graph.Regroup | utils/graph.py:15-20 | proof step for `Plot`'s loop invariant: what was drawn before a record, then the record's node and nested drawing, then the rest, regroups as a concatenation |
| Graph.Digraph.constructor | utils/graph.py:28 | an empty digraph with the source as comment |
| Graph.Digraph.AddNode | utils/graph.py:15 | appends one node |
| Graph.Digraph.AddEdge | utils/graph.py:16 | appends one edge |
| Graph.PlotStepContinues | utils/graph.py:9-22 | a loop pass that draws a record and ends normally keeps the loop invariant |
| Graph.PlotStepStops | utils/graph.py:9-22 | a loop pass that raises ends `plot` as `Walk` says |
| Graph.Plot | utils/graph.py:8-22 | `plot` appends exactly the nodes and edges of `Walk` and ends with its status |
| Graph.PlotRecord | utils/graph.py:10-22 | one loop pass draws the node (basename of "path", else "url", else `KeyError`) and its edge to upstream, then the nested inputs; a nested `KeyError` is caught, a `TypeError` is not |
| Graph.PlotLineage | utils/graph.py:25-51 | the source node comes first, labelled with its basename; a missing file crashes; no lineage or a `null` document returns before any input is drawn; otherwise the inputs are drawn as `Walk` says and rendered only when the walk ends normally |
| PyRepr.Utf8 | pyshark/manifest.py:84 | a string's UTF-8 encoding has at least one byte per character |
| PyRepr.EscapeBytes | pyshark/manifest.py:84 | the repr of the bytes has at least one character per byte |
| PyRepr.AttributeHistoryIsNotTheDocument | pyshark/manifest.py:84 | as written, the history recorded from an attribute is at least three characters longer than the document, so it is never the document |
| PyRepr.EmptyDocumentExample | pyshark/manifest.py:84 | the document `{}` is recorded as `b'{}'` |

## Left out

- SHA-1 and chunked reads (manifest.py lines 71-79 and 199-204) are reduced to a fixed `hashOf` outcome per path: the file cannot be opened, a read fails, or a digest. The digest itself is not computed.
- `os.path.abspath(os.path.join(os.getcwd(), name))` is a function the manifest is given (`resolve`). Path normalisation is not modelled.
- JSON. The shared buffer's payload uses a concrete binary encoding of the same `to_dict` dictionaries, so its round trip is proved. The lineage document is rendered by a simple JSON-like `Render`. `json.loads` in graph.py is the parameter `parse` of `PlotLineage`.
- `struct.pack("@Q")` is taken as little-endian. Native byte order is a property of the machine.
- The `locket` lock, `multiprocessing.shared_memory` allocation, `parent_process()` and fork are not modelled. The region is one object shared by several `Manifest` objects. Each method runs as one critical section. `unlink` only sets a flag. Concurrent flushes are not modelled.
- In `generate`, the environment capture is not modelled: arguments, start and end times, user and host, git status, platform and Python packages (manifest.py lines 154-193 and 206-216). The document keeps only "inputs" and "outputs".
- The diagnostics printed to stderr (manifest.py lines 78 and 235) are not modelled.
- `builtin_open` is not defined in the files shown. It is taken to behave as `open`.
- The descriptor cache's keys are `int`. Entries are an input reference or an output path.
- `pyshark/shim.py`, `pyshark/__init__.py` and `pyshark/__main__.py` are not part of this model: the pandas monkey-patching, the atexit and signal wiring, and script execution. `__init__.py` calls `save(None)` against a `save` that takes no argument.
- graph.py's remote-host clustering is not modelled. Neither is `dot.render`: rendering is the `Rendered` outcome.
- Node ids (`str(name.__hash__())`) are an abstract function `h` of the label.
- graph.py decodes the attribute's bytes as UTF-8. The model stores attributes as text and does not model that decoding.
- Manifests.Manifest.AppendInput: for an input that has a `user.shark` attribute, the history recorded is the attribute's text. The source, at line 84, records `str()` of the attribute's bytes, e.g. `b'{}'` for the document `{}`. This is the corrected line 84 of the first finding. The as-written text is `PyRepr.AttributeHistoryAsWritten`.
- WalkFromRooted: holds on every tree, including walks that raise part-way, but only says that each edge leads to the upstream node or to some earlier node. The exact parent of each edge is stated by `WalkEdges`, for trees whose every record is drawable. A walk that raises is not given exact parents.
- RootedAttach: the step lemma of `WalkFromRooted`, with the same gap. Exact heads are given by `EdgesToAttach`.
- WalkRooted: the top-level form of `WalkFromRooted`, with the same gap. Exact heads are given by `WalkEdges`.
- Disks.Persist and Graph.PlotLineage: both take `xattr.xattr(p)` to raise `FileNotFoundError` when `p` does not exist. pyshark/manifest.py:220-223 relies on this, and so does utils/graph.py:34, where the model's `main` crashes on a missing source. The `xattr` package is not part of this model. If its constructor does not touch the file and the error comes only at the first get or set, the source behaves differently: `_save_to_file` on a missing file would reach `except OSError` and try the side file, and `main` would find no attribute and try the side file.
- Manifests.Manifest.ChildFlush: the source writes without a size check. The model checks first and returns `Overflow` with the buffer unchanged, which is the corrected behaviour of the second finding. The length bound of 2^64 follows from the 128 MiB capacity.
- In `parent_flush`, like the source, the root does not dedup by path when it merges. The union can hold two references with the same path and different digests or histories. So `UniquePaths` is preserved by `AppendInput` only.
- History as text: the manifest stores an input's history as a string. graph.py indexes it as an object, which raises `TypeError`. This is modelled (`History.Text`, `TypeErr`): the nested tree graph.py expects exists only when `parse` yields objects below the top level.

## Findings

| source | as written | input that shows it | evidently intended | confidence | as-written member | corrected member |
|---|---|---|---|---|---|---|
| pyshark/manifest.py:84 | `str(xattr_info['user.shark'])`: the attribute is `bytes`, so `str` gives its repr `b'...'` | an input whose attribute was written from the document `{}` records the history `b'{}'` | record the document text, i.e. decode the bytes as UTF-8, as utils/graph.py:36 does, so that the history read back is the document saved (`Disks.Persist` and `Manifests.Manifest.SavedLineageIsRecorded` prove this for the corrected `AppendInput`) | not executed | PyRepr.AttributeHistoryIsNotTheDocument | Manifests.Manifest.AppendInput |
| pyshark/manifest.py:140-141 | the length prefix is written before the payload slice; a payload longer than the buffer makes the slice assignment raise after the prefix changed | a buffer of 16 bytes and a payload of 9 bytes: the prefix says 9 but only 8 bytes follow it | check the size first and leave the buffer unchanged when the payload does not fit | not executed | Codec.AsWrittenOverflowCorrupts | Manifests.Manifest.ChildFlush |
