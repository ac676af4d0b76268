/**
 * The fixed-capacity shared buffer the root process creates and every forked
 * process inherits (`Manifest.child_input_lists` in pyshark/manifest.py).
 * One `Region` object shared by several manifests models the shared memory;
 * the advisory lock around every access is not modelled (each method runs
 * as one critical section).
 */
module SharedMemory {
  import opened FileRefs
  import opened Codec

  /** A memoryview slice assignment `a[off:off+len(src)] = src`, byte by byte. */
  method CopyInto(a: array<byte>, off: nat, src: seq<byte>)
    requires off + |src| <= a.Length
    modifies a
    ensures a[..] == old(a[..off]) + src + old(a[off + |src|..])
  {
    for k := 0 to |src|
      invariant forall j :: 0 <= j < off ==> a[j] == old(a[j])
      invariant forall j :: 0 <= j < k ==> a[off + j] == src[j]
      invariant forall j :: off + k <= j < a.Length ==> a[j] == old(a[j])
    {
      a[off + k] := src[k];
    }
    assert a[..] == old(a[..off]) + src + old(a[off + |src|..]) by {
      var want := old(a[..off]) + src + old(a[off + |src|..]);
      assert |want| == a.Length;
      forall j | 0 <= j < a.Length ensures a[j] == want[j] {
        if j < off {
        } else if j < off + |src| {
          assert a[off + (j - off)] == src[j - off];
        } else {
        }
      }
    }
  }

  class Region {
    const buf: array<byte>
    /** Whether the root has unlinked the shared memory. */
    var unlinked: bool

    ghost predicate Valid()
      reads this, buf
    {
      WellFormed(buf[..]) && buf.Length < Pow256(PREFIX)
    }

    /** The set of references the region holds. */
    ghost function Contents(): set<FileRef>
      reads this, buf
      requires Valid()
    {
      Stored(buf[..])
    }

    /** `SharedMemory(create=True, size=capacity)` and a zero length prefix. */
    constructor (capacity: nat)
      requires PREFIX <= capacity < Pow256(PREFIX)
      ensures Valid() && fresh(buf) && buf.Length == capacity
      ensures Contents() == {} && !unlinked
    {
      buf := new byte[capacity](_ => 0);
      unlinked := false;
      new;
      CopyInto(buf, 0, Pack(0, PREFIX));
      UnpackPack(0, PREFIX);
      assert buf[..][..PREFIX] == Pack(0, PREFIX);
    }

    /**
     * Reads the prefix and, when it is non-zero, decodes that many payload
     * bytes into the set of references they hold.
     */
    method Read() returns (current: set<FileRef>)
      requires Valid()
      ensures current == Contents()
    {
      var length := Unpack(buf[..PREFIX]);
      if length > 0 {
        var raw := buf[PREFIX..PREFIX + length];
        var currentlist := Deserialise(raw).value;
        current := Members(currentlist);
      } else {
        current := {};
      }
    }
 
    /**
     * Writes the length prefix and then the payload encoding `refs`; the
     * payload must fit behind the prefix.
     */
    method Write(refs: seq<FileRef>)
      requires Valid()
      requires PREFIX + |Serialise(refs)| <= buf.Length
      modifies buf
      ensures Valid()
      ensures buf[..] == Written(old(buf[..]), Serialise(refs))
      ensures StoredLength(buf[..]) == |Serialise(refs)|
      ensures Contents() == Members(refs)
    {
      var payload := Serialise(refs);
      ghost var before := buf[..];
      CopyInto(buf, 0, Pack(|payload|, PREFIX));
      CopyInto(buf, PREFIX, payload);
      assert buf[..] == Written(before, payload);
      WrittenStores(before, refs);
    }
  }
}
