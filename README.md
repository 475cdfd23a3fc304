# useFileInput, modelled in Dafny

This project models the `useFileInput` React hook of `use-file-input`. The hook
is a controller for picking files with a native file input or by drag and drop.
It owns two pieces of state:

- `files`: an insertion-ordered `Map<string, File>` keyed by a derived key. The
  key is the caller's `id(file)` when an `id` function is configured, else
  `file.name`.
- `isDraggingOver`: a flag that is `true` while a drag hovers the drop target.

It exposes event handlers (`onFileInputChange`, `onFileInputDragStart`,
`onFileInputDragOver`, `onFileInputDragLeave`, `onFileInputDrop`) and a
dictionary-like `files` facade (`get`, `set`, `delete`, `has`, `keys`,
`values`, `entries`, `clear`).

The model is in four modules:

- `OrderedMap` (OrderedMap.dfy): the ECMAScript `Map` semantics the
  collection relies on (ECMA-262, 2023 edition, section 24.1). A map is a
  sequence of entries. `Set` on a present key replaces the value in place and
  keeps the key's position (section 24.1.3.9). `Set` on a new key appends it.
  `Delete` removes one entry and keeps the order of the rest (section
  24.1.3.3). Each operation returns a new value, so an older snapshot is never
  changed.
- `FileCollection` (FileCollection.dfy): files, the derived key, and the
  copy-on-write snapshot updates `addFile`, `deleteFile` and `clearFiles`. It
  also holds the collection invariant (each stored key is its file's derived
  key, and keys are distinct), the folds used by the event handlers, and a
  history lemma relating the collection's size to the keys added and deleted.
- `FileInputController` (FileInput.dfy): the class `FileInput`, with fields
  `files` and `isDraggingOver`, the handlers as methods, and the facade. Drag
  events are objects of the class `DragEvent`. Its fields record whether the
  default action was suppressed and what the drag payload holds.
- `Scenarios` (Scenarios.dfy): clients that drive the controller through whole
  interactions (pick, hover and drop, replace, upload then delete) using only
  its contracts.

Two details of the code shape the model:

- `addFile` returns `files`, the snapshot from the last render, not the
  updated one (src/index.ts:21). `AddFile` returns the snapshot from just
  before the call. Within one handler the code returns the same render-time
  snapshot on every call. The model returns the snapshot from just before each
  call, because updates are applied at once.
- `onFileInputChange` skips empty slots of the picker's list (`if (file)`,
  src/index.ts:44). The drop loop does not skip them (src/index.ts:70-74). The
  model does the same.

## Model

| member | source | states |
|---|---|---|
| OrderedMap.IndexOf | src/index.ts:20 | finds the first entry whose key is `k`, or reports that no entry has key `k` (the lookup `Map.prototype.set`, `get`, `has` and `delete` share) |
| OrderedMap.Has | src/index.ts:115-117 | `has(k)` holds iff some entry has key `k` |
| OrderedMap.Get | src/index.ts:88-90 | `get(k)` is defined iff `has(k)`, and its value is one stored under `k` |
| OrderedMap.Set | src/index.ts:20 | the written entry `(k, v)` is in the result; the size grows by one exactly when `k` is new |
| OrderedMap.GetHas | src/index.ts:88-90 | `has(k)` holds iff `k` is among the keys; `get(k)` is defined iff `has(k)`, and it returns a value stored under `k` |
| OrderedMap.SetSpec | src/index.ts:20 | after `set(k, v)`, `get(k)` is `v` and every other key keeps its value; a present key keeps its place in the key order and a new key is appended at the end; distinct keys stay distinct |
| OrderedMap.Delete | src/index.ts:30 | the answer is whether `k` was present; an absent key leaves the map unchanged; a present key shrinks it by one; every remaining entry was in the map, and every entry at another key remains |
| OrderedMap.DeleteSpec | src/index.ts:28-30 | `delete(k)` returns whether `k` was present; an absent key leaves the map unchanged; otherwise the result is the map without its `k` entry, with the other entries in the same order and with the same values, and keys still distinct |
| OrderedMap.WithoutFacts | src/index.ts:30 | removing the entries at `k` keeps keys distinct, removes `k` from the key set, and changes no other key's value |
| FileCollection.KeyOf | src/index.ts:20 | computes the derived key: the configured `id(file)`, or `file.name` when no `id` is configured (the same expression is used at line 30) |
| FileCollection.Add | src/index.ts:20 | computes the copy of the snapshot with `file` set under its derived key; its properties are stated by `FileCollection.AddSpec` |
| FileCollection.Empty | src/index.ts:38-40 | `new Map()`: no key is present |
| FileCollection.AddSpec | src/index.ts:19-22 | `addFile(f)` stores `f` under `key(f)` and changes no other key; a new key is appended, a present key keeps its position; the invariant (stored key = derived key, keys distinct) is kept |
| FileCollection.DeleteFileSpec | src/index.ts:24-36 | `deleteFile` at a key reports whether the key was present, leaves an absent key's snapshot unchanged, removes only that entry, keeps the others in order with their values, and keeps the invariant |
| FileCollection.DeleteByKeyIsDeleteByFile | src/index.ts:95-104 | resolving a present key to its stored file and deleting that file's derived key does exactly what deleting the key does |
| FileCollection.AddThenDelete | src/index.ts:19-36 | adding a file with a new key and then deleting that key gives back the previous snapshot and returns `true` |
| FileCollection.AddIdempotent | src/index.ts:20 | adding the same file twice is the same as adding it once |
| FileCollection.AddAll | src/index.ts:70-74 | computes `addFile` applied to each file of the list, left to right; its properties are stated by the lemmas below |
| FileCollection.AddAllGrows | src/index.ts:70-74 | adding a list of files never removes an entry, adds at most one entry per file, and leaves every existing key at its position |
| FileCollection.AddAllSnoc | src/index.ts:70-74 | adding a list of files one at a time and then one more file is the same as adding the longer list |
| FileCollection.DistinctSize | src/index.ts:16 | a collection with distinct keys has as many entries as keys |
| FileCollection.AddAllKeys | src/index.ts:43-47 | adding a list of files keeps the invariant; the key set grows by exactly the files' derived keys |
| FileCollection.AddAllSize | src/index.ts:20 | starting from an empty collection, adding any list of files leaves one entry per distinct derived key, even when files with equal keys differ otherwise |
| FileCollection.Present | src/index.ts:43-44 | computes the files of a picker list without its empty slots; there are never more of them than the list has slots |
| FileCollection.PresentMembers | src/index.ts:43-44 | a file is kept iff some slot of the list holds it |
| FileCollection.PresentSnoc | src/index.ts:43-45 | the present files of a list with one more slot are those of the prefix, followed by that slot's file if the slot holds one |
| FileCollection.ReplayInvariant | src/index.ts:19-40 | every history of add, delete and clear calls from the initial empty map keeps the invariant; the collection's keys are the derived keys added since the last clear minus those deleted after being added, with one entry each |
| FileInputController.PickedOrEmpty | src/index.ts:43 | computes the picker's list `event.target.files`, or an empty list when it is null |
| FileInputController.DragEvent.constructor | src/index.ts:50-77 | a drag event carries the target's id and the dropped files; its default action is not yet suppressed and its payload is empty |
| FileInputController.FileInput.constructor | src/index.ts:14-17 | a new controller has the configured identity, an empty collection and `isDraggingOver == false` |
| FileInputController.FileInput.TargetKey | src/index.ts:95-104 | computes the key `files.delete` removes: a string argument is the key itself, a file's key is its derived key |
| FileInputController.FileInput.AddFile | src/index.ts:19-22 | the new state is `Add` of the old snapshot; the returned snapshot is the one before the update, and it is left unchanged; the drag flag is unchanged |
| FileInputController.FileInput.DeleteFile | src/index.ts:24-36 | the result is "the file's derived key was present", and the new state is the old snapshot without that key |
| FileInputController.FileInput.ClearFiles | src/index.ts:38-40 | the collection becomes empty and the drag flag is unchanged |
| FileInputController.FileInput.OnFileInputChange | src/index.ts:42-48 | the new collection is the old one with every present file of the picker list added, left to right; a null list adds nothing; the drag flag is unchanged |
| FileInputController.FileInput.OnFileInputDragStart | src/index.ts:50-53 | the default action is suppressed and `text/plain` is set to the target's id in the payload; the collection and the drag flag are unchanged |
| FileInputController.FileInput.OnFileInputDragLeave | src/index.ts:55-58 | the default action is suppressed and `isDraggingOver` becomes `false`, whatever it was; files are unchanged |
| FileInputController.FileInput.OnFileInputDragOver | src/index.ts:60-63 | the default action is suppressed and `isDraggingOver` becomes `true`, whatever it was; files are unchanged |
| FileInputController.FileInput.OnFileInputDrop | src/index.ts:65-77 | the default action is suppressed; the dropped files are added in index order; `isDraggingOver` ends `false` whatever the prior state |
| FileInputController.FileInput.Get | src/index.ts:88-90 | `get(key)` is defined iff `has(key)`; under the invariant, the file returned has `key` as its derived key |
| FileInputController.FileInput.Has | src/index.ts:115-117 | `has(key)` holds iff `key` is among the keys |
| FileInputController.FileInput.Keys | src/index.ts:112-114 | one key per entry, in insertion order; under the invariant, `get` of the i-th key is the i-th stored file |
| FileInputController.FileInput.Values | src/index.ts:109-111 | one value per key, in key order; under the invariant, the i-th value is what `get` returns for the i-th key |
| FileInputController.FileInput.Entries | src/index.ts:118-120 | the entries list the keys in key order; under the invariant, a pair is an entry iff `get` maps its key to its file |
| FileInputController.FileInput.Set | src/index.ts:91-94 | `files.set(f)` has exactly the effect of `addFile(f)` |
| FileInputController.FileInput.Delete | src/index.ts:95-105 | the result is whether the target's key was present; only that key's entry is removed. The key of a string target is the string itself, through the stored file; an absent key answers `false` and changes nothing. The key of a file target is its derived key |
| FileInputController.FileInput.Clear | src/index.ts:106-108 | the collection becomes empty, so `has` is false for every key and the views are empty |
| Scenarios.PickOneFile | src/index.ts:42-48 | with the default identity, picking `x.txt` gives one entry, keyed `x.txt`, and no drag in progress |
| Scenarios.PickNothing | src/index.ts:43-44 | a null picker list and a list of empty slots both leave the collection empty |
| Scenarios.HoverThenDrop | src/index.ts:60-77 | drag-over sets the flag; dropping one file stores it under its name and clears the flag |
| Scenarios.OverOverLeave | src/index.ts:50-63 | drag start leaves the flag `false`; over, over gives `true` twice; leave gives `false` |
| Scenarios.ReplaceSameName | src/index.ts:20 | a second file named `x.txt` replaces the first under `x.txt`; the size stays the same and the entry keeps its place after `a.txt` |
| Scenarios.UploadThenDelete | __tests__/integration.test.tsx:85-101 | uploading a file and deleting it through the facade empties the list; a second delete answers `false` |
| Scenarios.DeleteAbsentKey | src/index.ts:96-102 | deleting a key that was never stored answers `false` and leaves the keys unchanged |
| Scenarios.CustomIdentityThenClear | src/index.ts:20 | with a caller-supplied identity, two files with the same name but different identities are both kept; after `clear`, `has` is false |

## Left out

- React's state mechanics are not modelled: updates from `useState` functional updaters are deferred and batched, and each update causes a re-render. The model applies every updater immediately to the current state.
- Under real batching, `deleteFile` may return `false` before its updater has run (src/index.ts:27-35). The model returns "the key was present".
- Under real batching, `files.delete(key)` looks the key up in the render-time snapshot (src/index.ts:97). The model looks it up in the current state.
- `useRef`, `fileInputRef` and the `ref` option (src/index.ts:15) are left out. They are a DOM handle with no logic.
- `event.preventDefault()` is modelled only as a `defaultPrevented` flag on the event. `dataTransfer.setData` is modelled only as an update of a payload map.
- When `currentTarget` is missing and `setData` receives `undefined` (src/index.ts:52), the platform stores the text "undefined". The model's target id is always a string.
- File contents, MIME type and size are not modelled. A file is its `name` plus an opaque `serial` that tells file objects apart.
- A caller-supplied `id` is modelled as a pure, total function from files to strings.
- `id` is fixed at construction. The hook takes it anew at each render (src/index.ts:14) and applies the current one at lines 20 and 30. An `id` that changes between renders can break the invariant. It can also make `files.delete(key)` remove a different key or nothing (src/index.ts:97-104).
- `keys()`, `values()` and `entries()` return lazy iterators in the source. They are modelled as sequences in iteration order.
- `files.set` returns the facade itself so that calls can be chained (src/index.ts:93). The model's `Set` returns nothing.
- `files.has(key: any)` accepts any value (src/index.ts:115). The model accepts string keys only. A map whose keys are all strings never has a non-string key.
- `files.delete` on a null or undefined argument is not modelled. Its argument is typed `string | File`.
