/**
 * The part of the file system the manifest reads and writes: which files
 * exist, the `user.shark` extended attribute of each file, and the text of
 * files read as text (the side files). The outcome of every attempt the core
 * makes (hashing a file, setting an attribute, creating a side file) is a
 * fixed function of its arguments, given as the environment.
 */
module Disks {
  import opened Wrappers
  import opened Paths

  /** Opening and hashing a file: `open` fails, a read fails, or the hex digest. */
  datatype HashOutcome = Unopenable | Unreadable | Digest(hex: string)

  datatype Fs = Fs(files: set<string>, attrs: map<string, string>, texts: map<string, string>)

  datatype Env = Env(
    hashOf: string -> HashOutcome,
    /** whether setting the attribute of the file to the text succeeds */
    acceptsAttr: (string, string) -> bool,
    /** whether a file at the path can be opened for writing */
    canWrite: string -> bool)

  /**
   * The lineage text attached to `p`: the attribute when the file has one,
   * otherwise the side file's text when it can be read, otherwise none
   * (pyshark/manifest.py lines 82-91; utils/graph.py lines 34-44 read in the same order).
   */
  function Lineage(fs: Fs, p: string): Option<string> {
    if p in fs.attrs then Some(fs.attrs[p])
    else if SideFileName(p) in fs.texts then Some(fs.texts[SideFileName(p)])
    else None
  }

  /**
   * `Manifest._save_to_file(p, m)`: nothing for a missing file; otherwise the
   * attribute first, the side file only when the attribute is refused, and a
   * diagnostic (no change) when the side file cannot be written either.
   */
  function Persist(env: Env, fs: Fs, p: string, m: string): (fs': Fs)
    ensures p !in fs.files ==> fs' == fs
    ensures fs'.attrs == fs.attrs || (p in fs.files && env.acceptsAttr(p, m) && fs'.attrs == fs.attrs[p := m])
    ensures fs'.texts != fs.texts ==> p in fs.files && !env.acceptsAttr(p, m) && env.canWrite(SideFileName(p))
    ensures fs'.texts == fs.texts || fs'.texts == fs.texts[SideFileName(p) := m]
    ensures fs.files <= fs'.files
    ensures Reaches(env, fs, p, m) ==> Lineage(fs', p) == Some(m)
    ensures p in fs.attrs && !env.acceptsAttr(p, m) ==> Lineage(fs', p) == Lineage(fs, p)
  {
    if p !in fs.files then fs
    else if env.acceptsAttr(p, m) then fs.(attrs := fs.attrs[p := m])
    else if env.canWrite(SideFileName(p)) then
      fs.(files := fs.files + {SideFileName(p)}, texts := fs.texts[SideFileName(p) := m])
    else fs
  }

  /** `_save_to_file(p, m)` for each `p` of `order` in turn. */
  function PersistAll(env: Env, fs: Fs, order: seq<string>, m: string): Fs
    decreases |order|
  {
    if order == [] then fs else PersistAll(env, Persist(env, fs, order[0], m), order[1..], m)
  }

  /** Whether persisting `m` on `p` makes `m` the lineage a later reader finds for `p`. */
  predicate Reaches(env: Env, fs: Fs, p: string, m: string) {
    p in fs.files && (env.acceptsAttr(p, m) || (env.canWrite(SideFileName(p)) && p !in fs.attrs))
  }

  lemma PersistKeepsLineage(env: Env, fs: Fs, q: string, p: string, m: string)
    requires q != p && Lineage(fs, p) == Some(m)
    ensures Lineage(Persist(env, fs, q, m), p) == Some(m)
  {
  }

  lemma {:induction false} PersistAllKeepsLineage(env: Env, fs: Fs, order: seq<string>, p: string, m: string)
    requires p !in order && Lineage(fs, p) == Some(m)
    ensures Lineage(PersistAll(env, fs, order, m), p) == Some(m)
    decreases |order|
  {
    if order != [] {
      PersistKeepsLineage(env, fs, order[0], p, m);
      PersistAllKeepsLineage(env, Persist(env, fs, order[0], m), order[1..], p, m);
    }
  }

  /**
   * Saving on a file `q` leaves the lineage found for any other file `p`
   * whose side file is a different one, whatever either file held.
   */
  lemma PersistLeavesOthers(env: Env, fs: Fs, q: string, p: string, m: string)
    requires q != p && SideFileName(q) != SideFileName(p)
    ensures Lineage(Persist(env, fs, q, m), p) == Lineage(fs, p)
  {
  }

  /** The same for saving on every file of `order`, none of which is `p` or shares `p`'s side file. */
  lemma {:induction false} PersistAllLeavesOthers(env: Env, fs: Fs, order: seq<string>, p: string, m: string)
    requires forall k :: 0 <= k < |order| ==> order[k] != p && SideFileName(order[k]) != SideFileName(p)
    ensures Lineage(PersistAll(env, fs, order, m), p) == Lineage(fs, p)
    decreases |order|
  {
    if order != [] {
      PersistLeavesOthers(env, fs, order[0], p, m);
      assert forall k :: 0 <= k < |order[1..]| ==> order[1..][k] == order[k + 1];
      PersistAllLeavesOthers(env, Persist(env, fs, order[0], m), order[1..], p, m);
    }
  }

  /**
   * Saving one document to every path of `order` (no path twice) gives every
   * path that exists and whose attribute or side file can be written that
   * document as the lineage a later reader finds.
   */
  lemma {:induction false} PersistAllReachesEach(env: Env, fs: Fs, order: seq<string>, m: string)
    requires forall i, j :: 0 <= i < j < |order| ==> order[i] != order[j]
    ensures forall k :: 0 <= k < |order| && Reaches(env, fs, order[k], m) ==>
              Lineage(PersistAll(env, fs, order, m), order[k]) == Some(m)
    decreases |order|
  {
    if order != [] {
      var fs1 := Persist(env, fs, order[0], m);
      var rest := order[1..];
      PersistAllReachesEach(env, fs1, rest, m);
      forall k | 0 <= k < |order| && Reaches(env, fs, order[k], m)
        ensures Lineage(PersistAll(env, fs, order, m), order[k]) == Some(m)
      {
        if k == 0 {
          assert order[0] !in rest by {
            forall j | 0 <= j < |rest| ensures rest[j] != order[0] {
              assert rest[j] == order[j + 1];
            }
          }
          PersistAllKeepsLineage(env, fs1, rest, order[0], m);
        } else {
          assert rest[k - 1] == order[k];
          assert Reaches(env, fs1, order[k], m) by {
            assert order[0] != order[k];
          }
        }
      }
    }
  }

  /** The file system and its outcome functions, as one mutable object. */
  class Disk {
    var fs: Fs
    const env: Env

    constructor (fs: Fs, env: Env)
      ensures this.fs == fs && this.env == env
    {
      this.fs := fs;
      this.env := env;
    }
  }
}
