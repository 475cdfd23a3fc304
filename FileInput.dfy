/**
 The `useFileInput` controller (src/index.ts): the state the hook owns, the
 current file snapshot and the `isDraggingOver` flag, as fields of one
 object, the event handlers that update them, and the dictionary-like `files`
 facade. Each state setter is applied immediately to the current state.
 */
module FileInputController {
  import opened OrderedMap
  import opened FileCollection

  /**
   The parts of a drag event the handlers touch: whether the default action
   was suppressed, and the drag payload's data store (`dataTransfer.setData`).
   `targetId` is the drop target's element id and `droppedFiles` the payload's
   file list (`dataTransfer.files`).
   */
  class DragEvent {
    const targetId: string
    const droppedFiles: seq<File>
    var defaultPrevented: bool
    var payload: map<string, string>

    constructor (targetId: string, droppedFiles: seq<File>)
      ensures this.targetId == targetId && this.droppedFiles == droppedFiles
      ensures !defaultPrevented && payload == map[]
    {
      this.targetId := targetId;
      this.droppedFiles := droppedFiles;
      defaultPrevented := false;
      payload := map[];
    }
  }

  /** A picker's `event.target.files`: possibly null, with possibly empty slots. */
  type PickerFiles = Option<seq<Option<File>>>

  /** `event.target.files || []`. */
  function PickedOrEmpty(selected: PickerFiles): seq<Option<File>>
  {
    match selected
    case Some(list) => list
    case None => []
  }

  /** The argument of `files.delete`: `string | File`. */
  datatype DeleteTarget = ByKey(key: string) | ByFile(file: File)

  class FileInput {
    /** The configured `id`, or `None` when the caller gave none. */
    const id: Identity
    /** The current snapshot of `files: Map<string, File>`. */
    var files: Snapshot
    var isDraggingOver: bool

    /** Every stored key is its file's derived key and no key repeats. */
    ghost predicate Valid()
      reads this
    {
      WellKeyed(id, files)
    }

    /** `useFileInput({ id })`: an empty collection and no drag in progress. */
    constructor (id: Identity)
      ensures Valid()
      ensures this.id == id && files == Empty() && !isDraggingOver
    {
      this.id := id;
      files := Empty();
      isDraggingOver := false;
    }

    /** The key under which `files.delete(target)` removes. */
    function TargetKey(target: DeleteTarget): string
    {
      match target
      case ByKey(k) => k
      case ByFile(f) => KeyOf(id, f)
    }

    /**
     `addFile`: stores `file` under its derived key. What it returns is the
     snapshot current before the update, which the update leaves as it was.
     */
    method AddFile(file: File) returns (shown: Snapshot)
      requires Valid()
      modifies this
      ensures Valid()
      ensures files == Add(id, old(files), file)
      ensures shown == old(files)
      ensures isDraggingOver == old(isDraggingOver)
    {
      shown := files;
      AddSpec(id, files, file);
      files := Add(id, files, file);
    }

    /** `deleteFile`: removes the entry at `file`'s derived key and reports whether there was one. */
    method DeleteFile(file: File) returns (result: bool)
      requires Valid()
      modifies this
      ensures Valid()
      ensures result == OrderedMap.Has(old(files), KeyOf(id, file))
      ensures files == OrderedMap.Delete(old(files), KeyOf(id, file)).0
      ensures isDraggingOver == old(isDraggingOver)
    {
      result := false;
      DeleteFileSpec(id, files, KeyOf(id, file));
      var (next, deleted) := OrderedMap.Delete(files, KeyOf(id, file));
      result := deleted;
      files := next;
    }

    /** `clearFiles`: replaces the collection by a fresh empty one. */
    method ClearFiles()
      modifies this
      ensures Valid()
      ensures files == Empty()
      ensures isDraggingOver == old(isDraggingOver)
    {
      files := Empty();
    }

    /**
     `onFileInputChange`: adds every present file of the picker's list in
     order; a null list adds nothing.
     */
    method OnFileInputChange(selected: PickerFiles)
      requires Valid()
      modifies this
      ensures Valid()
      ensures files == AddAll(id, old(files), Present(PickedOrEmpty(selected)))
      ensures isDraggingOver == old(isDraggingOver)
    {
      var list := PickedOrEmpty(selected);
      var i := 0;
      while i < |list|
        invariant 0 <= i <= |list|
        invariant Valid()
        invariant files == AddAll(id, old(files), Present(list[..i]))
        invariant isDraggingOver == old(isDraggingOver)
      {
        assert list[..i + 1] == list[..i] + [list[i]];
        PresentSnoc(list[..i], list[i]);
        if list[i].Some? {
          AddAllSnoc(id, old(files), Present(list[..i]), list[i].value);
          var _ := AddFile(list[i].value);
        } else {
          assert Present(list[..i + 1]) == Present(list[..i]);
        }
        i := i + 1;
      }
      assert list[..i] == list;
    }

    /**
     `onFileInputDragStart`: suppresses the default action and writes the
     target's id into the payload as `text/plain`; the collection and the drag
     flag are left alone.
     */
    method OnFileInputDragStart(event: DragEvent)
      modifies event
      ensures event.defaultPrevented
      ensures event.payload == old(event.payload)["text/plain" := event.targetId]
      ensures files == old(files) && isDraggingOver == old(isDraggingOver)
    {
      event.defaultPrevented := true;
      event.payload := event.payload["text/plain" := event.targetId];
    }

    /** `onFileInputDragLeave`: suppresses the default action; the target is no longer hovered. */
    method OnFileInputDragLeave(event: DragEvent)
      modifies this, event
      ensures event.defaultPrevented && event.payload == old(event.payload)
      ensures !isDraggingOver
      ensures files == old(files)
    {
      event.defaultPrevented := true;
      isDraggingOver := false;
    }

    /** `onFileInputDragOver`: suppresses the default action; the target is hovered. */
    method OnFileInputDragOver(event: DragEvent)
      modifies this, event
      ensures event.defaultPrevented && event.payload == old(event.payload)
      ensures isDraggingOver
      ensures files == old(files)
    {
      event.defaultPrevented := true;
      isDraggingOver := true;
    }

    /**
     `onFileInputDrop`: suppresses the default action, adds the dropped files
     in index order, and ends the hover whatever the state was before.
     */
    method OnFileInputDrop(event: DragEvent)
      requires Valid()
      modifies this, event
      ensures Valid()
      ensures event.defaultPrevented && event.payload == old(event.payload)
      ensures files == AddAll(id, old(files), event.droppedFiles)
      ensures !isDraggingOver
    {
      event.defaultPrevented := true;
      var dropped := event.droppedFiles;
      for i := 0 to |dropped|
        invariant Valid()
        invariant files == AddAll(id, old(files), dropped[..i])
        invariant event.defaultPrevented && event.payload == old(event.payload)
      {
        assert dropped[..i + 1] == dropped[..i] + [dropped[i]];
        AddAllSnoc(id, old(files), dropped[..i], dropped[i]);
        var _ := AddFile(dropped[i]);
      }
      assert dropped[..|dropped|] == dropped;
      isDraggingOver := false;
    }

    /** `files.get(key)`: the file stored under `key`, which has `key` as its derived key. */
    function Get(key: string): (r: Option<File>)
      reads this
      ensures r.Some? <==> Has(key)
      ensures r.Some? ==> Entry(key, r.value) in files
      ensures Valid() && r.Some? ==> KeyOf(id, r.value) == key
    {
      GetHas(files, key);
      OrderedMap.Get(files, key)
    }

    /** `files.has(key)`: whether `key` is one of the collection's keys. */
    predicate Has(key: string)
      reads this
      ensures Has(key) <==> key in OrderedMap.Keys(files)
    {
      GetHas(files, key);
      OrderedMap.Has(files, key)
    }

    /** `files.keys()`: the keys in insertion order; each one gets the file listed with it. */
    function Keys(): (r: seq<string>)
      reads this
      ensures |r| == |files|
      ensures Valid() ==> forall i :: 0 <= i < |r| ==> Get(r[i]) == Some(files[i].value)
    {
      var ks := OrderedMap.Keys(files);
      assert Valid() ==> forall i :: 0 <= i < |ks| ==> Get(ks[i]) == Some(files[i].value) by {
        if Valid() {
          forall i | 0 <= i < |ks| ensures Get(ks[i]) == Some(files[i].value) {
            GetIffMember(files, ks[i], files[i].value);
            assert files[i] == Entry(ks[i], files[i].value);
          }
        }
      }
      ks
    }

    /** `files.values()`: the files in the keys' order, each the one its key maps to. */
    function Values(): (r: seq<File>)
      reads this
      ensures |r| == |Keys()|
      ensures Valid() ==> forall i :: 0 <= i < |r| ==> Get(Keys()[i]) == Some(r[i])
    {
      OrderedMap.Values(files)
    }

    /** `files.entries()`: with the invariant, exactly the pairs `get` agrees with, in key order. */
    function Entries(): (r: seq<Entry<File>>)
      reads this
      ensures OrderedMap.Keys(r) == Keys()
      ensures Valid() ==> forall e :: e in r <==> Get(e.key) == Some(e.value)
    {
      assert Valid() ==> forall e :: e in files <==> Get(e.key) == Some(e.value) by {
        if Valid() {
          forall e ensures e in files <==> Get(e.key) == Some(e.value) {
            GetIffMember(files, e.key, e.value);
          }
        }
      }
      files
    }

    /** `files.set(file)`: the same as `addFile`. */
    method Set(file: File)
      requires Valid()
      modifies this
      ensures Valid()
      ensures files == Add(id, old(files), file)
      ensures isDraggingOver == old(isDraggingOver)
    {
      var _ := AddFile(file);
    }

    /**
     `files.delete(target)`: a key is first resolved to its stored file (an
     absent key answers false and changes nothing), then that file is deleted
     by its derived key, which by the invariant is the key itself; a file is
     deleted by its derived key directly. Either way the answer is whether the
     key was present and the entry at that key is the only one removed.
     */
    method Delete(target: DeleteTarget) returns (removed: bool)
      requires Valid()
      modifies this
      ensures Valid()
      ensures removed == OrderedMap.Has(old(files), TargetKey(target))
      ensures files == OrderedMap.Delete(old(files), TargetKey(target)).0
      ensures isDraggingOver == old(isDraggingOver)
    {
      var file: File;
      if target.ByKey? {
        var stored := Get(target.key);
        if stored.None? {
          DeleteFileSpec(id, files, target.key);
          return false;
        }
        DeleteByKeyIsDeleteByFile(id, files, target.key);
        file := stored.value;
      } else {
        file := target.file;
      }
      removed := DeleteFile(file);
    }

    /** `files.clear()`: the same as `clearFiles`. */
    method Clear()
      modifies this
      ensures Valid()
      ensures files == Empty()
      ensures isDraggingOver == old(isDraggingOver)
    {
      ClearFiles();
    }
  }
}
