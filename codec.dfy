/**
 * The byte layout of the shared region: an 8-byte unsigned length prefix
 * (`struct.pack("@Q", n)`, taken little-endian) followed by `n` bytes holding
 * the serialised list of input references.
 *
 * The source serialises that list as UTF-8 JSON of the `to_dict` forms; this
 * model uses a concrete binary encoding of the same dictionaries instead (each
 * character as three bytes, strings closed by the byte 0xFF, a tag byte for
 * the optional "history" key), so that the round trip is proved rather than
 * assumed.
 */
module Codec {
  import opened Wrappers
  import opened FileRefs

  type byte = x: int | 0 <= x < 256

  function Pow256(k: nat): (p: nat)
    ensures p > 0
  {
    if k == 0 then 1 else 256 * Pow256(k - 1)
  }

  /** An unsigned 64-bit prefix holds any length below this bound. */
  lemma Pow256Prefix()
    ensures Pow256(PREFIX) == 0x1_0000_0000_0000_0000
  {
    assert Pow256(4) == 0x1_0000_0000;
  }

  /** Size in bytes of the length prefix, `struct.calcsize("@Q")`. */
  const PREFIX: nat := 8

  /** `n` as `k` little-endian bytes. */
  function Pack(n: nat, k: nat): (b: seq<byte>)
    requires n < Pow256(k)
    ensures |b| == k
  {
    if k == 0 then [] else [n % 256] + Pack(n / 256, k - 1)
  }

  /** The number that little-endian bytes `b` stand for. */
  function Unpack(b: seq<byte>): (n: nat)
    ensures n < Pow256(|b|)
  {
    if b == [] then 0 else b[0] + 256 * Unpack(b[1..])
  }

  lemma {:induction false} UnpackPack(n: nat, k: nat)
    requires n < Pow256(k)
    ensures Unpack(Pack(n, k)) == n
  {
    if k > 0 {
      UnpackPack(n / 256, k - 1);
      assert Pack(n, k)[1..] == Pack(n / 256, k - 1);
    }
  }

  lemma {:induction false} PackUnpack(b: seq<byte>)
    ensures Pack(Unpack(b), |b|) == b
  {
    if b != [] {
      var u := Unpack(b[1..]);
      var n := b[0] + 256 * u;
      assert n % 256 == b[0] && n / 256 == u;
      PackUnpack(b[1..]);
      assert Pack(n, |b|) == [b[0]] + Pack(u, |b| - 1);
    }
  }

  // ----- characters and strings -----

  /** The byte that closes an encoded string; no encoded character starts with it. */
  const END: byte := 255

  predicate IsScalar(v: int) {
    0 <= v < 0xD800 || 0xE000 <= v < 0x11_0000
  }

  function EncodeChar(c: char): (b: seq<byte>)
    ensures |b| == 3 && b[0] != END
  {
    var v := c as int;
    [v / 0x1_0000, v / 0x100 % 0x100, v % 0x100]
  }

  function DecodeChar(b0: byte, b1: byte, b2: byte): Option<char> {
    var v := b0 * 0x1_0000 + b1 * 0x100 + b2;
    if IsScalar(v) then Some(v as char) else None
  }

  lemma DecodeEncodeChar(c: char)
    ensures var b := EncodeChar(c); DecodeChar(b[0], b[1], b[2]) == Some(c)
  {
    var v := c as int;
    var q := v / 0x100;
    assert v == q * 0x100 + v % 0x100;
    assert q == (q / 0x100) * 0x100 + q % 0x100;
    assert v / 0x1_0000 == q / 0x100;
  }

  function EncodeString(s: string): (b: seq<byte>)
    ensures |b| > 0
  {
    if s == [] then [END] else EncodeChar(s[0]) + EncodeString(s[1..])
  }

  /** Reads one encoded string off the front of `b`, giving it and the bytes after it. */
  function DecodeString(b: seq<byte>): (r: Option<(string, seq<byte>)>)
    ensures r.Some? ==> |r.value.1| < |b|
  {
    if |b| == 0 then None
    else if b[0] == END then Some(([], b[1..]))
    else if |b| < 3 then None
    else
      match DecodeChar(b[0], b[1], b[2])
      case None => None
      case Some(c) =>
        match DecodeString(b[3..])
        case None => None
        case Some((s, rest)) => Some(([c] + s, rest))
  }

  lemma {:induction false} DecodeEncodeString(s: string, rest: seq<byte>)
    ensures DecodeString(EncodeString(s) + rest) == Some((s, rest))
  {
    if s != [] {
      var e := EncodeChar(s[0]);
      var b := EncodeString(s) + rest;
      assert b == e + (EncodeString(s[1..]) + rest);
      assert b[3..] == EncodeString(s[1..]) + rest;
      DecodeEncodeChar(s[0]);
      DecodeEncodeString(s[1..], rest);
      assert [s[0]] + s[1..] == s;
    }
  }

  // ----- serialised references -----

  /** One `to_dict` form: path, sha, then a tag byte and the history when present. */
  function EncodeDict(d: Dict): seq<byte>
    requires IsRefDict(d)
  {
    EncodeString(d["path"]) + EncodeString(d["sha"])
      + (if "history" in d then [1] + EncodeString(d["history"]) else [0])
  }

  function DecodeDict(b: seq<byte>): (r: Option<(Dict, seq<byte>)>)
    ensures r.Some? ==> |r.value.1| < |b| && IsRefDict(r.value.0)
  {
    match DecodeString(b)
    case None => None
    case Some((path, b1)) =>
      match DecodeString(b1)
      case None => None
      case Some((sha, b2)) => DecodeHistory(path, sha, b2)
  }

  /** The tag byte and, after tag 1, the history string. */
  function DecodeHistory(path: string, sha: string, b: seq<byte>): (r: Option<(Dict, seq<byte>)>)
    ensures r.Some? ==> |r.value.1| < |b| && IsRefDict(r.value.0)
  {
    if b == [] then None
    else if b[0] == 0 then Some((map["path" := path, "sha" := sha], b[1..]))
    else if b[0] == 1 then
      match DecodeString(b[1..])
      case None => None
      case Some((history, b3)) =>
        Some((map["path" := path, "sha" := sha, "history" := history], b3))
    else None
  }

  lemma DecodeEncodeDict(d: Dict, rest: seq<byte>)
    requires IsRefDict(d)
    ensures DecodeDict(EncodeDict(d) + rest) == Some((d, rest))
  {
    var tail := (if "history" in d then [1] + EncodeString(d["history"]) else [0]) + rest;
    var b1 := EncodeString(d["sha"]) + tail;
    assert EncodeDict(d) + rest == EncodeString(d["path"]) + b1;
    DecodeEncodeString(d["path"], b1);
    DecodeEncodeString(d["sha"], tail);
    DecodeEncodedHistory(d, rest);
  }

  lemma DecodeEncodedHistory(d: Dict, rest: seq<byte>)
    requires IsRefDict(d)
    ensures DecodeHistory(d["path"], d["sha"], (if "history" in d then [1] + EncodeString(d["history"]) else [0]) + rest)
         == Some((d, rest))
  {
    if "history" in d {
      var b := [1] + EncodeString(d["history"]) + rest;
      assert b[1..] == EncodeString(d["history"]) + rest;
      DecodeEncodeString(d["history"], rest);
      assert map["path" := d["path"], "sha" := d["sha"], "history" := d["history"]] == d;
    } else {
      assert ([0] + rest)[1..] == rest;
      assert map["path" := d["path"], "sha" := d["sha"]] == d;
    }
  }

  function EncodeDicts(ds: seq<Dict>): seq<byte>
    requires forall k :: 0 <= k < |ds| ==> IsRefDict(ds[k])
  {
    if ds == [] then [] else EncodeDict(ds[0]) + EncodeDicts(ds[1..])
  }

  function DecodeDicts(b: seq<byte>): Option<seq<Dict>>
    decreases |b|
  {
    if b == [] then Some([])
    else
      match DecodeDict(b)
      case None => None
      case Some((d, rest)) =>
        match DecodeDicts(rest)
        case None => None
        case Some(ds) => Some([d] + ds)
  }

  lemma {:induction false} DecodeEncodeDicts(ds: seq<Dict>)
    requires forall k :: 0 <= k < |ds| ==> IsRefDict(ds[k])
    ensures DecodeDicts(EncodeDicts(ds)) == Some(ds)
  {
    if ds != [] {
      var first, rest := EncodeDict(ds[0]), EncodeDicts(ds[1..]);
      assert EncodeDicts(ds) == first + rest;
      assert |first| > 0;
      DecodeEncodeDict(ds[0], rest);
      DecodeEncodeDicts(ds[1..]);
      assert [ds[0]] + ds[1..] == ds;
    }
  }

  /** `[x.to_dict() for x in refs]`. */
  function Dicts(refs: seq<FileRef>): (ds: seq<Dict>)
    ensures |ds| == |refs|
    ensures forall k :: 0 <= k < |ds| ==> ds[k] == ToDict(refs[k])
  {
    if refs == [] then [] else [ToDict(refs[0])] + Dicts(refs[1..])
  }

  /** `[FileRef.from_dict(x) for x in ds]`; `None` when some `from_dict` raises. */
  function FromDicts(ds: seq<Dict>): Option<seq<FileRef>> {
    if ds == [] then Some([])
    else
      match FromDict(ds[0])
      case None => None
      case Some(r) =>
        match FromDicts(ds[1..])
        case None => None
        case Some(rs) => Some([r] + rs)
  }

  lemma {:induction false} FromDictsDicts(refs: seq<FileRef>)
    ensures FromDicts(Dicts(refs)) == Some(refs)
  {
    if refs != [] {
      FromDictsDicts(refs[1..]);
      assert Dicts(refs)[1..] == Dicts(refs[1..]);
      assert [refs[0]] + refs[1..] == refs;
    }
  }

  /** The payload the flush writes for a list of references. */
  function Serialise(refs: seq<FileRef>): seq<byte> {
    EncodeDicts(Dicts(refs))
  }

  /** The references a payload holds; `None` when it cannot be read back. */
  function Deserialise(b: seq<byte>): Option<seq<FileRef>> {
    match DecodeDicts(b)
    case None => None
    case Some(ds) => FromDicts(ds)
  }

  lemma DeserialiseSerialise(refs: seq<FileRef>)
    ensures Deserialise(Serialise(refs)) == Some(refs)
  {
    DecodeEncodeDicts(Dicts(refs));
    FromDictsDicts(refs);
  }

  // ----- the region's layout -----

  /** No element occurs twice. */
  predicate Distinct<T(==)>(xs: seq<T>) {
    forall i, j :: 0 <= i < j < |xs| ==> xs[i] != xs[j]
  }

  /** The set of a sequence's elements (`set(xs)`). */
  function Members<T>(xs: seq<T>): set<T> {
    set x | x in xs
  }

  lemma MembersEmpty<T>(xs: seq<T>)
    ensures Members(xs) == {} <==> xs == []
  {
    if xs != [] {
      assert xs[0] in Members(xs);
    }
  }

  /** `f` summed over the list. */
  function SumOf<T>(xs: seq<T>, f: T -> nat): nat {
    if xs == [] then 0 else f(xs[0]) + SumOf(xs[1..], f)
  }

  /** The number of bytes `EncodeDict` takes for one reference. */
  function RefSize(r: FileRef): nat {
    |EncodeDict(ToDict(r))|
  }

  lemma {:induction false} SerialiseSize(refs: seq<FileRef>)
    ensures |Serialise(refs)| == SumOf(refs, RefSize)
  {
    if refs != [] {
      assert Dicts(refs) == [ToDict(refs[0])] + Dicts(refs[1..]);
      assert Dicts(refs)[1..] == Dicts(refs[1..]);
      SerialiseSize(refs[1..]);
    }
  }

  lemma {:induction false} SumOfConcat<T>(a: seq<T>, b: seq<T>, f: T -> nat)
    ensures SumOf(a + b, f) == SumOf(a, f) + SumOf(b, f)
  {
    if a != [] {
      assert (a + b)[1..] == a[1..] + b;
      SumOfConcat(a[1..], b, f);
    } else {
      assert a + b == b;
    }
  }

  lemma SumOfRemove<T>(xs: seq<T>, j: nat, f: T -> nat)
    requires j < |xs|
    ensures SumOf(xs, f) == f(xs[j]) + SumOf(xs[..j] + xs[j + 1..], f)
  {
    var before, after := xs[..j], xs[j + 1..];
    assert xs == before + [xs[j]] + after;
    SumOfConcat(before + [xs[j]], after, f);
    SumOfConcat(before, [xs[j]], f);
    SumOfConcat(before, after, f);
    assert SumOf([xs[j]], f) == f(xs[j]) + SumOf([xs[j]][1..], f);
  }

  /**
   * Two duplicate-free lists of the same references encode to the same
   * number of bytes, whatever their order: the size of a set's payload does
   * not depend on the order the set is iterated in.
   */
  lemma SerialiseSizeOfSameSet(a: seq<FileRef>, b: seq<FileRef>)
    requires Distinct(a) && Distinct(b) && Members(a) == Members(b)
    ensures |Serialise(a)| == |Serialise(b)|
  {
    SerialiseSize(a);
    SerialiseSize(b);
    SumOfSameSet(a, b, RefSize);
  }

  lemma {:induction false} SumOfSameSet<T>(a: seq<T>, b: seq<T>, f: T -> nat)
    requires Distinct(a) && Distinct(b) && Members(a) == Members(b)
    ensures SumOf(a, f) == SumOf(b, f)
    decreases |a|
  {
    MembersEmpty(a);
    MembersEmpty(b);
    if a != [] {
      assert a[0] in Members(b);
      var j :| 0 <= j < |b| && b[j] == a[0];
      SumOfRemove(b, j, f);
      RemoveAt(b, j);
      RemoveAt(a, 0);
      assert a[..0] + a[1..] == a[1..];
      SumOfSameSet(a[1..], b[..j] + b[j + 1..], f);
    }
  }

  /** Taking one element out of a duplicate-free list takes exactly that element out of its members. */
  lemma RemoveAt<T>(xs: seq<T>, j: nat)
    requires Distinct(xs) && j < |xs|
    ensures Distinct(xs[..j] + xs[j + 1..])
    ensures Members(xs[..j] + xs[j + 1..]) == Members(xs) - {xs[j]}
  {
    var rest := xs[..j] + xs[j + 1..];
    forall p, q | 0 <= p < q < |rest| ensures rest[p] != rest[q] {
      var p' := if p < j then p else p + 1;
      var q' := if q < j then q else q + 1;
      assert rest[p] == xs[p'] && rest[q] == xs[q'];
    }
    forall x ensures x in rest <==> x in xs && x != xs[j] {
      if x in rest {
        var k :| 0 <= k < |rest| && rest[k] == x;
        var k' := if k < j then k else k + 1;
        assert x == xs[k'] && k' != j;
      }
      if x in xs && x != xs[j] {
        var k :| 0 <= k < |xs| && xs[k] == x;
        if k < j {
          assert rest[k] == x;
        } else {
          assert rest[k - 1] == x;
        }
      }
    }
  }

  /** The value of the length prefix. */
  function StoredLength(b: seq<byte>): nat
    requires |b| >= PREFIX
  {
    Unpack(b[..PREFIX])
  }

  /** The prefix fits the region and, when non-zero, the payload reads back. */
  predicate WellFormed(b: seq<byte>) {
    && |b| >= PREFIX
    && PREFIX + StoredLength(b) <= |b|
    && (StoredLength(b) > 0 ==> Deserialise(b[PREFIX..PREFIX + StoredLength(b)]).Some?)
  }

  /** The set of references the region holds (`set(...)` of the decoded list, empty for length 0). */
  function Stored(b: seq<byte>): set<FileRef>
    requires WellFormed(b)
  {
    if StoredLength(b) == 0 then {}
    else Members(Deserialise(b[PREFIX..PREFIX + StoredLength(b)]).value)
  }

  /** The region after the prefix `len(raw)` and then `raw` have been written in place. */
  function Written(b: seq<byte>, raw: seq<byte>): (b': seq<byte>)
    requires PREFIX + |raw| <= |b|
    requires |raw| < Pow256(PREFIX)
    ensures |b'| == |b|
  {
    Pack(|raw|, PREFIX) + raw + b[PREFIX + |raw|..]
  }

  /**
   * Writing the serialisation of `refs` leaves a well-formed region that
   * holds exactly the elements of `refs`, whatever the region held before.
   */
  lemma WrittenStores(b: seq<byte>, refs: seq<FileRef>)
    requires PREFIX + |Serialise(refs)| <= |b|
    requires |Serialise(refs)| < Pow256(PREFIX)
    ensures WellFormed(Written(b, Serialise(refs)))
    ensures StoredLength(Written(b, Serialise(refs))) == |Serialise(refs)|
    ensures Stored(Written(b, Serialise(refs))) == Members(refs)
  {
    var raw := Serialise(refs);
    var w := Written(b, raw);
    assert w[..PREFIX] == Pack(|raw|, PREFIX);
    UnpackPack(|raw|, PREFIX);
    assert w[PREFIX..PREFIX + |raw|] == raw;
    DeserialiseSerialise(refs);
  }

  /**
   * `child_flush` as written: the prefix is written first, then the payload
   * slice is assigned; an oversize payload makes that assignment raise after
   * the prefix has already changed. The flag says whether an exception was
   * raised (`struct.error` for a length that does not fit 8 bytes, the
   * memoryview's `ValueError` for a payload that does not fit the region).
   */
  function FlushAsWritten(b: seq<byte>, raw: seq<byte>): (r: (seq<byte>, bool))
    requires |b| >= PREFIX
  {
    if |raw| >= Pow256(PREFIX) then (b, true)
    else if PREFIX + |raw| > |b| then (Pack(|raw|, PREFIX) + b[PREFIX..], true)
    else (Written(b, raw), false)
  }

  /**
   * A payload too large for the region leaves the region's prefix claiming
   * more bytes than the region holds: every later flush reads a region that
   * is no longer well-formed.
   */
  lemma AsWrittenOverflowCorrupts(b: seq<byte>, raw: seq<byte>)
    requires WellFormed(b)
    requires |raw| < Pow256(PREFIX)
    requires PREFIX + |raw| > |b|
    ensures FlushAsWritten(b, raw).1
    ensures !WellFormed(FlushAsWritten(b, raw).0)
  {
    var w := FlushAsWritten(b, raw).0;
    assert w[..PREFIX] == Pack(|raw|, PREFIX);
    UnpackPack(|raw|, PREFIX);
  }
}
