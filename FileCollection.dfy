/**
 The keyed file collection behind `useFileInput` (src/index.ts): snapshots of
 an insertion-ordered map from a derived key to a file, and the copy-on-write
 transformations `addFile`, `deleteFile` and `clearFiles` apply to them.
 */
module FileCollection {
  import opened OrderedMap

  /**
   A host file object. Only its `name` matters to the collection; `serial`
   stands for everything else that tells two file objects apart (identity,
   contents, type, size), which the collection never inspects.
   */
  datatype File = File(name: string, serial: nat)

  /** The optional caller-supplied identity function `id?: (file: File) => string`. */
  type Identity = Option<File -> string>

  /** A snapshot of the collection: the entries of a `Map<string, File>`, in order. */
  type Snapshot = seq<Entry<File>>

  /** The derived key `id?.(file) ?? file.name`. */
  function KeyOf(id: Identity, f: File): string
  {
    match id
    case Some(g) => g(f)
    case None => f.name
  }

  /** The collection invariant: every key is its file's derived key, and no key repeats. */
  ghost predicate WellKeyed(id: Identity, s: Snapshot)
  {
    && DistinctKeys(s)
    && forall i :: 0 <= i < |s| ==> s[i].key == KeyOf(id, s[i].value)
  }

  /** `new Map(prev).set(id?.(file) ?? file.name, file)`. */
  function Add(id: Identity, s: Snapshot, f: File): Snapshot
  {
    Set(s, KeyOf(id, f), f)
  }

  /** `new Map()`. */
  function Empty(): (r: Snapshot)
    ensures forall k :: !Has(r, k)
  {
    []
  }

  /**
   Adding `f` stores it under its derived key and changes no other key; a new
   key is appended, a present one keeps its position; the invariant is kept.
   */
  lemma AddSpec(id: Identity, s: Snapshot, f: File)
    requires WellKeyed(id, s)
    ensures Get(Add(id, s, f), KeyOf(id, f)) == Some(f)
    ensures forall k :: k != KeyOf(id, f) ==> Get(Add(id, s, f), k) == Get(s, k)
    ensures Keys(Add(id, s, f)) == if Has(s, KeyOf(id, f)) then Keys(s) else Keys(s) + [KeyOf(id, f)]
    ensures KeySet(Add(id, s, f)) == KeySet(s) + {KeyOf(id, f)}
    ensures WellKeyed(id, Add(id, s, f))
  {
    var k := KeyOf(id, f);
    SetSpec(s, k, f);
    var r := Add(id, s, f);
    match IndexOf(s, k)
    case Some(i) =>
      forall j | 0 <= j < |r| ensures r[j].key == KeyOf(id, r[j].value) {
        if j != i {
          assert r[j] == s[j];
        }
      }
    case None =>
      forall j | 0 <= j < |r| ensures r[j].key == KeyOf(id, r[j].value) {
        if j < |s| {
          assert r[j] == s[j];
        }
      }
  }

  /**
   Deleting `key` from a copy of the snapshot (`new Map(prev)` then
   `next.delete(key)`) reports whether it was present, removes that entry only,
   keeps the others with their values in their relative order, and keeps the
   invariant; an absent key leaves the snapshot as it was.
   */
  lemma DeleteFileSpec(id: Identity, s: Snapshot, key: string)
    requires WellKeyed(id, s)
    ensures Delete(s, key).1 == Has(s, key)
    ensures !Has(s, key) ==> Delete(s, key).0 == s
    ensures Delete(s, key).0 == Without(s, key)
    ensures !Has(Delete(s, key).0, key)
    ensures forall k :: k != key ==> Get(Delete(s, key).0, k) == Get(s, k)
    ensures WellKeyed(id, Delete(s, key).0)
  {
    DeleteSpec(s, key);
    var r := Delete(s, key).0;
    GetHas(r, key);
    forall j | 0 <= j < |r| ensures r[j].key == KeyOf(id, r[j].value) {
      assert r[j] in r;
      WithoutMember(s, key, r[j]);
      var i :| 0 <= i < |s| && s[i] == r[j];
    }
  }

  /**
   Deleting by key is deleting by entity: resolving `k` to its stored file
   and deleting that file's derived key removes exactly what deleting `k` does.
   */
  lemma DeleteByKeyIsDeleteByFile(id: Identity, s: Snapshot, k: string)
    requires WellKeyed(id, s)
    requires Has(s, k)
    ensures Get(s, k).Some?
    ensures Delete(s, KeyOf(id, Get(s, k).value)) == Delete(s, k)
  {
  }

  /** Adding a file whose key is new and then deleting that key gives the old snapshot back. */
  lemma AddThenDelete(id: Identity, s: Snapshot, f: File)
    requires !Has(s, KeyOf(id, f))
    ensures Delete(Add(id, s, f), KeyOf(id, f)) == (s, true)
  {
    var k := KeyOf(id, f);
    var r := Add(id, s, f);
    assert r == s + [Entry(k, f)];
    assert forall j :: 0 <= j < |s| ==> r[j] == s[j] && s[j].key != k;
    assert r[|s|].key == k;
    assert IndexOf(r, k) == Some(|s|);
    assert r[..|s|] + r[|s| + 1..] == s;
  }

  /** Adding the same file twice is adding it once. */
  lemma AddIdempotent(id: Identity, s: Snapshot, f: File)
    ensures Add(id, Add(id, s, f), f) == Add(id, s, f)
  {
    var k := KeyOf(id, f);
    var r := Add(id, s, f);
    SetSpec(s, k, f);
    var i := IndexOf(r, k).value;
    assert r[i] == Entry(k, f);
    assert r[i := Entry(k, f)] == r;
  }

  /** `addFile` applied to each file of `fs`, left to right. */
  function AddAll(id: Identity, s: Snapshot, fs: seq<File>): Snapshot
    decreases |fs|
  {
    if |fs| == 0 then s else AddAll(id, Add(id, s, fs[0]), fs[1..])
  }

  /**
   Folding `fs` never removes an entry, adds at most one entry per file, and
   leaves every existing key at its position.
   */
  lemma {:induction false} AddAllGrows(id: Identity, s: Snapshot, fs: seq<File>)
    ensures |s| <= |AddAll(id, s, fs)| <= |s| + |fs|
    ensures forall i :: 0 <= i < |s| ==> AddAll(id, s, fs)[i].key == s[i].key
    decreases |fs|
  {
    if |fs| > 0 {
      AddAllGrows(id, Add(id, s, fs[0]), fs[1..]);
    }
  }

  /** Folding one more file at the end is one more `Add` after the fold. */
  lemma {:induction false} AddAllSnoc(id: Identity, s: Snapshot, fs: seq<File>, f: File)
    ensures AddAll(id, s, fs + [f]) == Add(id, AddAll(id, s, fs), f)
    decreases |fs|
  {
    if |fs| == 0 {
      assert AddAll(id, Add(id, s, f), []) == Add(id, s, f);
    } else {
      assert (fs + [f])[1..] == fs[1..] + [f];
      AddAllSnoc(id, Add(id, s, fs[0]), fs[1..], f);
    }
  }

  /** The distinct derived keys of the files `fs`. */
  function DerivedKeys(id: Identity, fs: seq<File>): set<string>
  {
    set i | 0 <= i < |fs| :: KeyOf(id, fs[i])
  }

  /** A snapshot with distinct keys has as many entries as keys. */
  lemma {:induction false} DistinctSize(s: Snapshot)
    requires DistinctKeys(s)
    ensures |KeySet(s)| == |s|
  {
    if |s| > 0 {
      var tail := s[1..];
      assert DistinctKeys(tail) by {
        forall i, j | 0 <= i < j < |tail| ensures tail[i].key != tail[j].key {
          assert tail[i] == s[i + 1] && tail[j] == s[j + 1];
        }
      }
      DistinctSize(tail);
      assert KeySet(s) == {s[0].key} + KeySet(tail) by {
        forall x ensures x in KeySet(s) <==> x == s[0].key || x in KeySet(tail) {
          if x in KeySet(s) && x != s[0].key {
            var i :| 0 <= i < |s| && s[i].key == x;
            assert tail[i - 1].key == x;
          }
          if x in KeySet(tail) {
            var i :| 0 <= i < |tail| && tail[i].key == x;
            assert s[i + 1].key == x;
          }
          assert s[0].key in KeySet(s);
        }
      }
      assert s[0].key !in KeySet(tail) by {
        forall j | 0 <= j < |tail| ensures tail[j].key != s[0].key {
          assert tail[j] == s[j + 1];
        }
      }
    }
  }

  /**
   Folding `fs` into a well-keyed snapshot keeps it well keyed and adds
   exactly the derived keys of `fs`.
   */
  lemma {:induction false} AddAllKeys(id: Identity, s: Snapshot, fs: seq<File>)
    requires WellKeyed(id, s)
    ensures WellKeyed(id, AddAll(id, s, fs))
    ensures KeySet(AddAll(id, s, fs)) == KeySet(s) + DerivedKeys(id, fs)
    decreases |fs|
  {
    if |fs| > 0 {
      AddSpec(id, s, fs[0]);
      AddAllKeys(id, Add(id, s, fs[0]), fs[1..]);
      assert DerivedKeys(id, fs) == {KeyOf(id, fs[0])} + DerivedKeys(id, fs[1..]) by {
        forall x ensures x in DerivedKeys(id, fs) <==> x == KeyOf(id, fs[0]) || x in DerivedKeys(id, fs[1..]) {
          if x in DerivedKeys(id, fs) && x != KeyOf(id, fs[0]) {
            var i :| 0 <= i < |fs| && KeyOf(id, fs[i]) == x;
            assert fs[1..][i - 1] == fs[i];
          }
          if x in DerivedKeys(id, fs[1..]) {
            var i :| 0 <= i < |fs[1..]| && KeyOf(id, fs[1..][i]) == x;
            assert fs[i + 1] == fs[1..][i];
          }
          assert KeyOf(id, fs[0]) in DerivedKeys(id, fs);
        }
      }
    }
  }

  /**
   Starting from an empty collection, adding `fs` one by one leaves as many
   entries as there are distinct derived keys among `fs`, whatever else the
   files with equal keys differ in.
   */
  lemma AddAllSize(id: Identity, fs: seq<File>)
    ensures |AddAll(id, Empty(), fs)| == |DerivedKeys(id, fs)|
    ensures KeySet(AddAll(id, Empty(), fs)) == DerivedKeys(id, fs)
  {
    AddAllKeys(id, Empty(), fs);
    DistinctSize(AddAll(id, Empty(), fs));
  }

  /** The files of a picker list, skipping empty slots (`if (file)`). */
  function Present(xs: seq<Option<File>>): (r: seq<File>)
    ensures |r| <= |xs|
  {
    if |xs| == 0 then []
    else (if xs[0].Some? then [xs[0].value] else []) + Present(xs[1..])
  }

  /** A file is present exactly when some slot of the list holds it. */
  lemma {:induction false} PresentMembers(xs: seq<Option<File>>)
    ensures forall f :: f in Present(xs) <==> Some(f) in xs
  {
    if |xs| > 0 {
      PresentMembers(xs[1..]);
      assert xs == [xs[0]] + xs[1..];
    }
  }

  /** `Present` of a longer list is `Present` of the prefix plus the last slot's file, if any. */
  lemma {:induction false} PresentSnoc(xs: seq<Option<File>>, x: Option<File>)
    ensures Present(xs + [x]) == Present(xs) + (if x.Some? then [x.value] else [])
  {
    if |xs| == 0 {
      assert Present([x]) == (if x.Some? then [x.value] else []) + Present([]);
    } else {
      assert (xs + [x])[1..] == xs[1..] + [x];
      PresentSnoc(xs[1..], x);
    }
  }

  /** One call against the collection: `addFile`, a delete of a key, or `clearFiles`. */
  datatype Op = AddOp(file: File) | DeleteOp(key: string) | ClearOp

  /** The snapshot after one call. */
  function Apply(id: Identity, s: Snapshot, op: Op): Snapshot
  {
    match op
    case AddOp(f) => Add(id, s, f)
    case DeleteOp(k) => Delete(s, k).0
    case ClearOp => Empty()
  }

  /** The snapshot after a history of calls, starting from the initial empty map. */
  function Replay(id: Identity, ops: seq<Op>): Snapshot
  {
    if |ops| == 0 then Empty()
    else Apply(id, Replay(id, ops[..|ops| - 1]), ops[|ops| - 1])
  }

  /**
   The keys a history leaves behind, as a set: the derived keys added since
   the last clear, minus those deleted after they were added.
   */
  ghost function LiveKeys(id: Identity, ops: seq<Op>): set<string>
  {
    if |ops| == 0 then {}
    else
      var before := LiveKeys(id, ops[..|ops| - 1]);
      match ops[|ops| - 1]
      case AddOp(f) => before + {KeyOf(id, f)}
      case DeleteOp(k) => before - {k}
      case ClearOp => {}
  }

  /**
   Every history keeps the invariant, and the collection holds exactly one
   entry per live key: its size is the number of distinct derived keys added
   since the last clear minus the keys deleted since.
   */
  lemma {:induction false} ReplayInvariant(id: Identity, ops: seq<Op>)
    ensures WellKeyed(id, Replay(id, ops))
    ensures KeySet(Replay(id, ops)) == LiveKeys(id, ops)
    ensures |Replay(id, ops)| == |LiveKeys(id, ops)|
  {
    if |ops| > 0 {
      var prefix := ops[..|ops| - 1];
      ReplayInvariant(id, prefix);
      var s := Replay(id, prefix);
      match ops[|ops| - 1]
      case AddOp(f) =>
        AddSpec(id, s, f);
      case DeleteOp(k) =>
        DeleteFileSpec(id, s, k);
        DeleteSpec(s, k);
      case ClearOp =>
    }
    DistinctSize(Replay(id, ops));
  }
}
