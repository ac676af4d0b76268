/**
 * The per-process provenance record (pyshark/manifest.py, class `Manifest`):
 * the inputs and outputs seen so far, the descriptor cache, the stack of
 * scope snapshots, and the shared region through which forked processes
 * merge their inputs into the root's.
 */
module Manifests {
  import opened Wrappers
  import opened Paths
  import opened FileRefs
  import opened Codec
  import opened SharedMemory
  import opened Disks

  /** `os.path.join("/tmp", "shark.lock")`. */
  const LOCK_NAME: string := "/tmp/shark.lock"
  /** Size of the shared region the root creates: 128 MiB. */
  const CAPACITY: nat := 1024 * 1024 * 128
  /** The digest recorded for an input that could not be read. */
  const UNKNOWN: string := "unknown"

  /** The name argument of `append_input` / `append_output`: a `str`, or some other object. */
  datatype PathArg = Str(s: string) | NotStr

  /** What a descriptor was registered for: an input reference or an output path. */
  datatype CacheEntry = InputRef(ref: FileRef) | OutputPath(path: string)

  datatype AppendResult =
    | Ignored                        // not a string, or the lock file
    | AlreadyRecorded(fqname: string) // an input with that absolute path exists
    | Recorded(ref: FileRef)
    | OpenFailed                     // opening the file raised; nothing recorded

  datatype CloseResult = NotTracked | Finalised | Dropped | GenerateFailed
  datatype FlushResult = Flushed | Overflow | NoRegion
  datatype MergeResult = Merged | NotRoot | Detached
  datatype SaveResult = Saved | SaveFailed

  /** One entry of the document's "outputs": a path and its digest at generation time. */
  datatype OutputRecord = OutputRecord(path: string, sha: string)

  /**
   * The lineage document, reduced to its "inputs" and "outputs"; the
   * environment it also records (arguments, times, user, host, git,
   * platform, packages) is not part of this model.
   */
  datatype Document = Document(inputs: seq<Dict>, outputs: seq<OutputRecord>)

  function DigestOrUnknown(h: HashOutcome): string {
    if h.Digest? then h.hex else UNKNOWN
  }

  predicate HasPath(s: set<FileRef>, p: string) {
    exists x :: x in s && x.path == p
  }

  /** No two recorded inputs share a path. */
  predicate UniquePaths(s: set<FileRef>) {
    forall a, b :: a in s && b in s && a.path == b.path ==> a == b
  }

  /** `doc` is a document generated from these inputs and outputs in this environment. */
  ghost predicate Describes(doc: Document, ins: set<FileRef>, outs: set<string>, env: Env) {
    && |doc.inputs| == |ins|
    && (forall k :: 0 <= k < |doc.inputs| ==> exists r :: r in ins && doc.inputs[k] == ToDict(r))
    && (forall r :: r in ins ==> ToDict(r) in doc.inputs)
    && |doc.outputs| == |outs|
    && (forall k :: 0 <= k < |doc.outputs| ==>
          doc.outputs[k].path in outs && env.hashOf(doc.outputs[k].path) == Digest(doc.outputs[k].sha))
    && (forall p :: p in outs ==> exists k :: 0 <= k < |doc.outputs| && doc.outputs[k].path == p)
  }

  /**
   * Iterates over a set in some order, as `for x in s` does: every element
   * exactly once.
   */
  method Enumerate<T(==)>(s: set<T>) returns (xs: seq<T>)
    ensures |xs| == |s| && Distinct(xs)
    ensures forall x :: x in xs <==> x in s
  {
    xs := [];
    var rest := s;
    while rest != {}
      invariant forall x :: x in s <==> x in xs || x in rest
      invariant forall x :: x in xs ==> x !in rest
      invariant Distinct(xs)
      invariant |xs| + |rest| == |s|
      decreases rest
    {
      var x :| x in rest;
      xs := xs + [x];
      rest := rest - {x};
    }
  }

  // ----- rendering the document as text (stands in for `json.dumps`) -----

  function Escaped(s: string): string {
    if s == [] then ""
    else (if s[0] == '"' || s[0] == '\\' then ['\\', s[0]] else [s[0]]) + Escaped(s[1..])
  }

  function Quoted(s: string): string {
    "\"" + Escaped(s) + "\""
  }

  function Field(d: Dict, key: string): string {
    if key in d then Quoted(key) + ": " + Quoted(d[key]) else ""
  }

  function RenderDict(d: Dict): string {
    "{" + Field(d, "path") + ", " + Field(d, "sha")
      + (if "history" in d then ", " + Field(d, "history") else "") + "}"
  }

  function RenderDicts(ds: seq<Dict>): string {
    if ds == [] then "" else RenderDict(ds[0]) + (if |ds| > 1 then ", " else "") + RenderDicts(ds[1..])
  }

  function RenderOutputs(os: seq<OutputRecord>): string {
    if os == [] then ""
    else
      "{\"path\": " + Quoted(os[0].path) + ", \"sha\": " + Quoted(os[0].sha) + "}"
      + (if |os| > 1 then ", " else "") + RenderOutputs(os[1..])
  }

  function Render(doc: Document): string {
    "{\"inputs\": [" + RenderDicts(doc.inputs) + "], \"outputs\": [" + RenderOutputs(doc.outputs) + "]}"
  }

  class Manifest {
    var inputs: set<FileRef>
    var outputs: set<string>
    var fdCache: map<int, CacheEntry>
    var stack: seq<(set<FileRef>, set<string>)>
    /** `child_input_lists`; `null` once `close` has run. */
    var region: Region?
    const lockName: string
    /** `parent_process() is None`. */
    const isRoot: bool
    /** `os.path.abspath(os.path.join(os.getcwd(), name))`. */
    const resolve: string -> string

    ghost predicate Valid()
      reads this, region, (if region != null then {region.buf} else {})
    {
      region != null ==> region.Valid()
    }

    /** The manifest of the root process: empty, with a fresh, empty shared region. */
    constructor Root(resolve: string -> string)
      ensures Valid() && isRoot && lockName == LOCK_NAME && this.resolve == resolve
      ensures inputs == {} && outputs == {} && fdCache == map[] && stack == []
      ensures region != null && fresh(region) && fresh(region.buf)
      ensures region.buf.Length == CAPACITY
      ensures region.Contents() == {} && !region.unlinked
    {
      Pow256Prefix();
      inputs := {};
      outputs := {};
      lockName := LOCK_NAME;
      fdCache := map[];
      isRoot := true;
      this.resolve := resolve;
      stack := [];
      region := new Region(CAPACITY);
    }

    /** The copy a forked process starts with: the same state, sharing the same region. */
    constructor Child(parent: Manifest)
      requires parent.Valid()
      ensures Valid() && !isRoot && region == parent.region
      ensures inputs == parent.inputs && outputs == parent.outputs
      ensures fdCache == parent.fdCache && stack == parent.stack
      ensures lockName == parent.lockName && resolve == parent.resolve
    {
      inputs := parent.inputs;
      outputs := parent.outputs;
      fdCache := parent.fdCache;
      stack := parent.stack;
      region := parent.region;
      lockName := parent.lockName;
      isRoot := false;
      resolve := parent.resolve;
    }

    /**
     * `append_input`: records the file an input was read from, with its
     * digest and any lineage already attached to it.
     */
    method AppendInput(disk: Disk, name: PathArg, descriptor: Option<int>) returns (r: AppendResult)
      modifies this`inputs, this`fdCache
      ensures r.Ignored? <==> name.NotStr? || name.s == lockName
      ensures r.AlreadyRecorded? <==> !r.Ignored? && HasPath(old(inputs), resolve(name.s))
      ensures r.AlreadyRecorded? ==> r.fqname == resolve(name.s)
      ensures r.OpenFailed? <==>
                !r.Ignored? && !r.AlreadyRecorded? && disk.env.hashOf(resolve(name.s)).Unopenable?
      ensures !r.Recorded? ==> inputs == old(inputs) && fdCache == old(fdCache)
      ensures r.Recorded? ==>
                var fq := resolve(name.s);
                && r.ref == FileRef(fq, DigestOrUnknown(disk.env.hashOf(fq)), Lineage(disk.fs, fq))
                && r.ref !in old(inputs)
                && inputs == old(inputs) + {r.ref}
                && fdCache == if descriptor.Some? then old(fdCache)[descriptor.value := InputRef(r.ref)]
                              else old(fdCache)
      ensures UniquePaths(old(inputs)) ==> UniquePaths(inputs)
    {
      if name.NotStr? {
        return Ignored;
      }
      if name.s == lockName {
        return Ignored;
      }
      var fqname := resolve(name.s);
      if exists x :: x in inputs && x.path == fqname {
        return AlreadyRecorded(fqname);
      }
      var hashdigest: string;
      match disk.env.hashOf(fqname) {
        case Unopenable =>
          return OpenFailed;
        case Unreadable =>
          hashdigest := UNKNOWN;
        case Digest(hex) =>
          hashdigest := hex;
      }
      var info := FileRef(fqname, hashdigest, None);
      if fqname in disk.fs.attrs {
        info := info.(history := Some(disk.fs.attrs[fqname]));
      } else {
        var sidefilename := SideFileName(fqname);
        if sidefilename in disk.fs.texts {
          info := info.(history := Some(disk.fs.texts[sidefilename]));
        }
      }
      inputs := inputs + {info};
      if descriptor.Some? {
        fdCache := fdCache[descriptor.value := InputRef(info)];
      }
      r := Recorded(info);
    }

    /** `append_output`: records an output path, and the descriptor it was opened as. */
    method AppendOutput(name: PathArg, descriptor: Option<int>)
      modifies this`outputs, this`fdCache
      ensures name.NotStr? || name.s == lockName ==> outputs == old(outputs) && fdCache == old(fdCache)
      ensures name.Str? && name.s != lockName ==>
                && outputs == old(outputs) + {resolve(name.s)}
                && fdCache == if descriptor.Some? then old(fdCache)[descriptor.value := OutputPath(resolve(name.s))]
                              else old(fdCache)
    {
      if name.NotStr? {
        return;
      }
      if name.s == lockName {
        return;
      }
      var fqname := resolve(name.s);
      outputs := outputs + {fqname};
      if descriptor.Some? {
        fdCache := fdCache[descriptor.value := OutputPath(fqname)];
      }
    }

    /**
     * `generate`, reduced to "inputs" and "outputs": every output is hashed
     * when the document is built; a file that cannot be opened or read makes
     * it raise (`None`).
     */
    method Generate(env: Env) returns (doc: Option<Document>)
      ensures doc.Some? <==> forall p :: p in outputs ==> env.hashOf(p).Digest?
      ensures doc.Some? ==> Describes(doc.value, inputs, outputs, env)
    {
      var outs := Enumerate(outputs);
      var outputhashed: seq<OutputRecord> := [];
      for k := 0 to |outs|
        invariant |outputhashed| == k
        invariant forall j :: 0 <= j < k ==>
                    outputhashed[j].path == outs[j] && env.hashOf(outs[j]) == Digest(outputhashed[j].sha)
      {
        var h := env.hashOf(outs[k]);
        if !h.Digest? {
          assert outs[k] in outputs;
          return None;
        }
        outputhashed := outputhashed + [OutputRecord(outs[k], h.hex)];
      }
      var ins := Enumerate(inputs);
      var dicts := Dicts(ins);
      forall p | p in outputs ensures exists k :: 0 <= k < |outputhashed| && outputhashed[k].path == p {
        var k :| 0 <= k < |outs| && outs[k] == p;
        assert outputhashed[k].path == p;
      }
      forall r | r in inputs ensures ToDict(r) in dicts {
        var k :| 0 <= k < |ins| && ins[k] == r;
        assert dicts[k] == ToDict(r);
      }
      forall k | 0 <= k < |dicts| ensures exists r :: r in inputs && dicts[k] == ToDict(r) {
        assert ins[k] in inputs;
      }
      doc := Some(Document(dicts, outputhashed));
    }

    /** `_save_to_file(filename, manifest)`. */
    method SaveToFile(disk: Disk, filename: string, manifest: string)
      modifies disk
      ensures disk.fs == Persist(disk.env, old(disk.fs), filename, manifest)
    {
      if filename !in disk.fs.files {
        return;
      }
      if disk.env.acceptsAttr(filename, manifest) {
        disk.fs := disk.fs.(attrs := disk.fs.attrs[filename := manifest]);
      } else {
        var sidefilename := SideFileName(filename);
        if disk.env.canWrite(sidefilename) {
          disk.fs := disk.fs.(files := disk.fs.files + {sidefilename},
                              texts := disk.fs.texts[sidefilename := manifest]);
        }
      }
    }

    /**
     * `close_fd`: a descriptor registered for a still-pending output has that
     * output finalised (a document generated and saved on it, the output
     * removed); any registered descriptor is then forgotten.
     */
    method CloseFd(disk: Disk, descriptor: int) returns (r: CloseResult, ghost doc: Option<Document>)
      modifies this`outputs, this`fdCache, disk
      ensures descriptor !in old(fdCache) ==>
                r == NotTracked && outputs == old(outputs) && fdCache == old(fdCache) && disk.fs == old(disk.fs)
      ensures descriptor in old(fdCache) && !(old(fdCache)[descriptor].OutputPath? && old(fdCache)[descriptor].path in old(outputs)) ==>
                r == Dropped && outputs == old(outputs) && fdCache == old(fdCache) - {descriptor} && disk.fs == old(disk.fs)
      ensures descriptor in old(fdCache) && old(fdCache)[descriptor].OutputPath? && old(fdCache)[descriptor].path in old(outputs) ==>
                var p := old(fdCache)[descriptor].path;
                && (r == GenerateFailed <==> exists q :: q in old(outputs) && !disk.env.hashOf(q).Digest?)
                && (r == GenerateFailed ==> outputs == old(outputs) && fdCache == old(fdCache) && disk.fs == old(disk.fs))
                && (r != GenerateFailed ==>
                      && r == Finalised
                      && doc.Some? && Describes(doc.value, inputs, old(outputs), disk.env)
                      && disk.fs == Persist(disk.env, old(disk.fs), p, Render(doc.value))
                      && outputs == old(outputs) - {p}
                      && fdCache == old(fdCache) - {descriptor})
    {
      doc := None;
      if descriptor !in fdCache {
        return NotTracked, doc;
      }
      var ref := fdCache[descriptor];
      r := Dropped;
      if ref.OutputPath? {
        if ref.path in outputs {
          var generated := Generate(disk.env);
          if generated.None? {
            return GenerateFailed, doc;
          }
          doc := generated;
          SaveToFile(disk, ref.path, Render(generated.value));
          outputs := outputs - {ref.path};
          r := Finalised;
        }
      }
      fdCache := fdCache - {descriptor};
    }

    /** `snapshot`: pushes a copy of the current inputs and outputs. */
    method Snapshot()
      modifies this`stack
      ensures stack == old(stack) + [(inputs, outputs)]
    {
      stack := stack + [(inputs, outputs)];
    }

    /**
     * `restore`: pops the most recent snapshot back into the inputs and
     * outputs; on an empty stack the pop raises and nothing changes.
     */
    method Restore() returns (ok: bool)
      modifies this`inputs, this`outputs, this`stack
      ensures ok <==> old(stack) != []
      ensures ok ==> (inputs, outputs) == old(stack)[|old(stack)| - 1]
      ensures ok ==> stack == old(stack)[..|old(stack)| - 1]
      ensures !ok ==> inputs == old(inputs) && outputs == old(outputs) && stack == old(stack)
    {
      if stack == [] {
        return false;
      }
      var top := stack[|stack| - 1];
      stack := stack[..|stack| - 1];
      inputs, outputs := top.0, top.1;
      ok := true;
    }

    /**
     * `child_flush`: merges the local inputs into the set held by the shared
     * region. The payload's size is checked before anything is written, so a
     * payload that would not fit leaves the region as it was.
     */
    method ChildFlush() returns (r: FlushResult, ghost raw: seq<byte>, ghost listed: seq<FileRef>)
      requires Valid()
      modifies if region != null then {region.buf} else {}
      ensures Valid()
      ensures region == null ==> r == NoRegion
      ensures region != null ==>
                && r != NoRegion
                && raw == Serialise(listed) && Distinct(listed)
                && Members(listed) == old(region.Contents()) + inputs
                && (r == Overflow <==> PREFIX + |raw| > region.buf.Length)
                && (r == Overflow ==> region.buf[..] == old(region.buf[..]))
                && (r == Flushed ==>
                      StoredLength(region.buf[..]) == |raw| && region.Contents() == old(region.Contents()) + inputs)
    {
      raw, listed := [], [];
      if region == null {
        return NoRegion, raw, listed;
      }
      var current := region.Read();
      current := current + inputs;
      var currentlist := Enumerate(current);
      var payload := Serialise(currentlist);
      raw, listed := payload, currentlist;
      if PREFIX + |payload| > region.buf.Length {
        return Overflow, raw, listed;
      }
      region.Write(currentlist);
      r := Flushed;
    }

    /**
     * `parent_flush`: in the root, unions the references held by the shared
     * region into the local inputs; elsewhere it does nothing.
     */
    method ParentFlush() returns (r: MergeResult)
      requires Valid()
      modifies this`inputs
      ensures !isRoot ==> r == NotRoot && inputs == old(inputs)
      ensures isRoot && region == null ==> r == Detached && inputs == old(inputs)
      ensures isRoot && region != null ==> r == Merged && inputs == old(inputs) + region.Contents()
      ensures isRoot && region != null && StoredLength(region.buf[..]) == 0 ==> inputs == old(inputs)
    {
      if !isRoot {
        return NotRoot;
      }
      if region == null {
        return Detached;
      }
      var buffer := region.buf;
      var length := Unpack(buffer[..PREFIX]);
      if length > 0 {
        var raw := buffer[PREFIX..PREFIX + length];
        var currentlist := Deserialise(raw).value;
        var current := Members(currentlist);
        inputs := inputs + current;
      }
      r := Merged;
    }

    /**
     * `save`: generates one document and saves it on every pending output,
     * in the order the set is iterated.
     */
    method Save(disk: Disk) returns (r: SaveResult, ghost order: seq<string>, ghost doc: Option<Document>)
      modifies disk
      ensures r == SaveFailed <==> exists p :: p in outputs && !disk.env.hashOf(p).Digest?
      ensures r == SaveFailed ==> disk.fs == old(disk.fs)
      ensures r == Saved ==>
                && doc.Some? && Describes(doc.value, inputs, outputs, disk.env)
                && |order| == |outputs| && Distinct(order) && (forall p :: p in order <==> p in outputs)
                && disk.fs == PersistAll(disk.env, old(disk.fs), order, Render(doc.value))
    {
      order := [];
      var generated := Generate(disk.env);
      doc := generated;
      if generated.None? {
        return SaveFailed, order, doc;
      }
      var manifest := Render(generated.value);
      var outs := Enumerate(outputs);
      order := outs;
      for k := 0 to |outs|
        invariant PersistAll(disk.env, disk.fs, outs[k..], manifest)
               == PersistAll(disk.env, old(disk.fs), outs, manifest)
      {
        assert outs[k..][1..] == outs[k + 1..];
        SaveToFile(disk, outs[k], manifest);
      }
      r := Saved;
    }

    /** `close`: drops the region; the root also unlinks the shared memory. */
    method Close()
      modifies this`region, region
      ensures region == null
      ensures old(region) != null && isRoot ==> old(region).unlinked
      ensures old(region) != null && !isRoot ==> old(region).unlinked == old(region.unlinked)
    {
      if region != null {
        var shared := region;
        region := null;
        if isRoot {
          shared.unlinked := true;
        }
      }
    }

    /** A scope that snapshots and restores with nothing in between leaves everything as it was. */
    method ScopeRoundTrip()
      modifies this`inputs, this`outputs, this`stack
      ensures inputs == old(inputs) && outputs == old(outputs) && stack == old(stack)
    {
      Snapshot();
      var ok := Restore();
    }

    /**
     * Nested scopes unwind last in, first out: the inner restore brings back
     * the state of the inner snapshot, the outer one that of the outer.
     */
    method NestedScopes(disk: Disk, inner: PathArg) returns (afterInner: set<string>)
      modifies this`inputs, this`outputs, this`stack, this`fdCache
      ensures afterInner == old(outputs) + (if inner.Str? && inner.s != lockName then {resolve(inner.s)} else {})
      ensures inputs == old(inputs) && outputs == old(outputs) && stack == old(stack)
    {
      Snapshot();
      AppendOutput(inner, None);
      Snapshot();
      AppendOutput(PathArg.Str("scratch"), None);
      var ok := Restore();
      afterInner := outputs;
      ok := Restore();
    }

    /**
     * A document saved on a file where it can be stored is what a later
     * `append_input` of that file records as the file's history.
     */
    method SavedLineageIsRecorded(disk: Disk, name: string, m: string) returns (r: AppendResult)
      requires name != lockName && !HasPath(inputs, resolve(name))
      requires Reaches(disk.env, disk.fs, resolve(name), m)
      modifies this`inputs, this`fdCache, disk
      ensures r.Recorded? || r.OpenFailed?
      ensures r.Recorded? ==> r.ref.path == resolve(name) && r.ref.history == Some(m)
    {
      SaveToFile(disk, resolve(name), m);
      r := AppendInput(disk, Str(name), None);
    }

    /** Flushing twice with the same inputs leaves the region holding the same set as flushing once. */
    method ChildFlushTwice() returns (first: FlushResult, second: FlushResult)
      requires Valid() && region != null
      modifies region.buf
      ensures Valid()
      ensures first == Flushed && second == Flushed ==> region.Contents() == old(region.Contents()) + inputs
      ensures first == Flushed ==> second == Flushed
    {
      ghost var raw, listed;
      first, raw, listed := ChildFlush();
      if first == Flushed {
        ghost var raw2, listed2;
        second, raw2, listed2 := ChildFlush();
        SerialiseSizeOfSameSet(listed, listed2);
      } else {
        second := first;
      }
    }
  }

  /**
   * A forked child's inputs reach the root: the child flushes into the shared
   * region and the root then merges the region into its own inputs.
   */
  method ForkMerge(root: Manifest, child: Manifest) returns (flushed: FlushResult, merged: MergeResult)
    requires root.Valid() && root.isRoot && root.region != null
    requires !child.isRoot && child.region == root.region
    modifies root.region.buf, root`inputs
    ensures flushed != NoRegion && merged == Merged && child.inputs == old(child.inputs)
    ensures flushed == Flushed ==> root.inputs == old(root.inputs) + old(root.region.Contents()) + child.inputs
    ensures flushed == Overflow ==> root.inputs == old(root.inputs) + old(root.region.Contents())
  {
    ghost var raw, listed;
    flushed, raw, listed := child.ChildFlush();
    merged := root.ParentFlush();
  }
}
