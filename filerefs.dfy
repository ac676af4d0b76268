/**
 * The reference to a local input file recorded by the manifest, and its
 * dictionary form (pyshark/manifest.py, `FileRef`, `to_dict`, `from_dict`).
 */
module FileRefs {
  import opened Wrappers

  /**
   * A recorded input: its absolute path, its content digest (or "unknown"),
   * and the lineage text found attached to it, if any. Equality, and so
   * membership in the manifest's sets, compares all three fields, as the
   * dataclass's generated equality does.
   */
  datatype FileRef = FileRef(path: string, sha: string, history: Option<string>)

  /** A JSON object whose values are strings. */
  type Dict = map<string, string>

  /** The keys a serialised `FileRef` may carry. */
  predicate IsRefDict(d: Dict) {
    && "path" in d
    && "sha" in d
    && d.Keys <= {"path", "sha", "history"}
  }

  /** `FileRef.to_dict`: "history" is present exactly when the reference has one. */
  function ToDict(r: FileRef): (d: Dict)
    ensures IsRefDict(d)
    ensures "history" in d <==> r.history.Some?
    ensures FromDict(d) == Some(r)
  {
    var res := map["path" := r.path, "sha" := r.sha];
    if r.history.Some? then res["history" := r.history.value] else res
  }

  /**
   * `FileRef.from_dict`: `None` stands for the `KeyError` raised when "path"
   * or "sha" is missing; a missing "history" gives no history.
   */
  function FromDict(d: Dict): (r: Option<FileRef>)
    ensures r.Some? <==> "path" in d && "sha" in d
  {
    if "path" in d && "sha" in d then
      Some(FileRef(d["path"], d["sha"], if "history" in d then Some(d["history"]) else None))
    else
      None
  }

  /** Every dictionary with the keys of a reference is the serialisation of one. */
  lemma ToDictFromDict(d: Dict)
    requires IsRefDict(d)
    ensures FromDict(d).Some? && ToDict(FromDict(d).value) == d
  {
    var r := FromDict(d).value;
    assert ToDict(r).Keys == d.Keys;
  }

  /** Two references with the same dictionary are the same reference. */
  lemma ToDictInjective(a: FileRef, b: FileRef)
    requires ToDict(a) == ToDict(b)
    ensures a == b
  {
  }
}
