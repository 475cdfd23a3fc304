/**
 Clients of the `useFileInput` controller that drive it through whole
 interactions and state what a host UI observes afterwards, using only the
 controller's contracts.
 */
module Scenarios {
  import opened OrderedMap
  import opened FileCollection
  import opened FileInputController

  /**
   Picking one file `x.txt` with the default identity leaves one entry under
   `x.txt` and no drag in progress.
   */
  method PickOneFile() returns (size: nat, keys: seq<string>, dragging: bool)
    ensures size == 1 && keys == ["x.txt"] && !dragging
  {
    var input := new FileInput(None);
    var fileA := File("x.txt", 1);
    input.OnFileInputChange(Some([Some(fileA)]));
    assert Present([Some(fileA)]) == [fileA];
    assert input.files == [Entry("x.txt", fileA)];
    size, keys, dragging := |input.files|, input.Keys(), input.isDraggingOver;
  }

  /** A null picker list and a list of empty slots add nothing. */
  method PickNothing() returns (sizeAfterNull: nat, sizeAfterHoles: nat)
    ensures sizeAfterNull == 0 && sizeAfterHoles == 0
  {
    var input := new FileInput(None);
    input.OnFileInputChange(None);
    sizeAfterNull := |input.files|;
    input.OnFileInputChange(Some([None, None]));
    assert Present([None, None]) == [];
    sizeAfterHoles := |input.files|;
  }

  /**
   Hovering and then dropping one file hovers, adds the file and ends the
   hover.
   */
  method HoverThenDrop() returns (hovering: bool, stored: Option<File>, draggingAfter: bool)
    ensures hovering && stored == Some(File("x.txt", 1)) && !draggingAfter
  {
    var input := new FileInput(None);
    var fileA := File("x.txt", 1);
    var over := new DragEvent("zone", []);
    input.OnFileInputDragOver(over);
    hovering := input.isDraggingOver;
    var drop := new DragEvent("zone", [fileA]);
    input.OnFileInputDrop(drop);
    assert input.files == [Entry("x.txt", fileA)];
    stored, draggingAfter := input.Get("x.txt"), input.isDraggingOver;
  }

  /**
   Repeated hovering is idempotent, one leave ends it, and a drag start
   changes neither the flag nor the collection.
   */
  method OverOverLeave() returns (afterStart: bool, afterOver: bool, afterSecondOver: bool, afterLeave: bool)
    ensures !afterStart && afterOver && afterSecondOver && !afterLeave
  {
    var input := new FileInput(None);
    var e := new DragEvent("zone", []);
    input.OnFileInputDragStart(e);
    afterStart := input.isDraggingOver;
    input.OnFileInputDragOver(e);
    afterOver := input.isDraggingOver;
    input.OnFileInputDragOver(e);
    afterSecondOver := input.isDraggingOver;
    input.OnFileInputDragLeave(e);
    afterLeave := input.isDraggingOver;
  }

  /**
   Two files with the same name: the second replaces the first under the
   shared key, the collection keeps one entry, and an earlier file keeps its
   position in front of it.
   */
  method ReplaceSameName() returns (size: nat, stored: Option<File>, keys: seq<string>)
    ensures size == 2 && stored == Some(File("x.txt", 2)) && keys == ["a.txt", "x.txt"]
  {
    var input := new FileInput(None);
    var first := File("a.txt", 0);
    var fileA := File("x.txt", 1);
    var fileB := File("x.txt", 2);
    input.Set(first);
    input.Set(fileA);
    assert input.files == [Entry("a.txt", first), Entry("x.txt", fileA)];
    input.Set(fileB);
    assert IndexOf([Entry("a.txt", first), Entry("x.txt", fileA)], "x.txt") == Some(1);
    assert input.files == [Entry("a.txt", first), Entry("x.txt", fileB)];
    size, stored, keys := |input.files|, input.Get("x.txt"), input.Keys();
  }

  /**
   Uploading a file and deleting it through the facade empties the
   collection; deleting it again answers false.
   */
  method UploadThenDelete() returns (first: bool, size: nat, second: bool)
    ensures first && size == 0 && !second
  {
    var input := new FileInput(None);
    var file := File("test.txt", 7);
    input.OnFileInputChange(Some([Some(file)]));
    assert Present([Some(file)]) == [file];
    assert input.files == [Entry("test.txt", file)];
    first := input.Delete(ByFile(file));
    size := |input.files|;
    second := input.Delete(ByFile(file));
  }

  /** Deleting by a key nobody stored answers false and leaves the collection as it was. */
  method DeleteAbsentKey() returns (removed: bool, keys: seq<string>)
    ensures !removed && keys == ["a.txt"]
  {
    var input := new FileInput(None);
    input.Set(File("a.txt", 0));
    assert input.files == [Entry("a.txt", File("a.txt", 0))];
    removed := input.Delete(ByKey("b.txt"));
    keys := input.Keys();
  }

  /**
   With a caller-supplied identity, files are keyed by it: two files with the
   same name but different identities are both kept, and clearing empties the
   collection so that `has` answers false.
   */
  method CustomIdentityThenClear() returns (size: nat, hasAfterClear: bool)
    ensures size == 2 && !hasAfterClear
  {
    var byStamp := (f: File) => if f.serial == 0 then "first" else "later";
    var input := new FileInput(Some(byStamp));
    input.Set(File("x.txt", 0));
    input.Set(File("x.txt", 1));
    assert input.files == [Entry("first", File("x.txt", 0)), Entry("later", File("x.txt", 1))];
    size := |input.files|;
    input.Clear();
    hasAfterClear := input.Has("first");
  }
}
