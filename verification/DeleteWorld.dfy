/** The two authorities of a library delete (src-tauri/src/library_delete.rs): the file tree
    below the library root, and the tables of the application store. */
module DeleteWorld {

  // ---------------------------------------------------------------- files

  /** One path component. Marker and payload names are a fixed prefix and an index. */
  datatype Component = Name(text: string) | MarkerOf(index: nat) | PayloadOf(index: nat)

  /** Relative to the library root: the components from the root outwards. */
  datatype Path = Root | Child(parent: Path, name: Component)

  const TRASH := Name(".ylx-library-trash")

  const TRASH_ROOT := Child(Root, TRASH)

  function OperationDir(op: string): Path {
    Child(TRASH_ROOT, Name(op))
  }

  function MarkerPath(op: string, i: nat): Path {
    Child(OperationDir(op), MarkerOf(i))
  }

  function PayloadPath(op: string, i: nat): Path {
    Child(OperationDir(op), PayloadOf(i))
  }

  predicate InTrash(p: Path) {
    p.Child? && (p == TRASH_ROOT || InTrash(p.parent))
  }

  /** Everything below a session directory: relative file path to bytes. */
  type Content = map<seq<string>, string>

  datatype TrashMarker = TrashMarker(operationId: string, entryKey: string, sourcePath: Path, payloadPath: Path)

  /** A session directory is one node, since a rename moves it whole and nothing here looks
      inside; `TornFile` is a marker whose write was cut short. */
  datatype Node =
    | Directory
    | SessionTree(content: Content)
    | MarkerFile(marker: TrashMarker)
    | TornFile
    | PlainFile(bytes: string)
    | Symlink
  {
    predicate IsDir() {
      Directory? || SessionTree?
    }
  }

  type Files = map<Path, Node>

  /** Whatever exists on the way to p is a directory. */
  predicate ClearWay(fs: Files, p: Path) {
    p.Child? ==> (p.parent in fs ==> fs[p.parent].IsDir()) && ClearWay(fs, p.parent)
  }

  /** `validate_source_chain`: no component is a symlink, and each can be inspected. */
  predicate ValidChain(fs: Files, p: Path) {
    ClearWay(fs, p) && (p in fs ==> !fs[p].Symlink?)
  }

  /** `validate_source_path`: such a chain that does not end in the trash. */
  predicate ValidSource(fs: Files, p: Path) {
    ValidChain(fs, p) && !InTrash(p)
  }

  /** `validate_intent_paths` for a trash path of this operation. */
  predicate ValidTrash(fs: Files, op: string, p: Path) {
    ValidChain(fs, p) && p.Child? && p.parent == OperationDir(op) && p.name.PayloadOf?
  }

  // ---------------------------------------------------------------- entries

  datatype Entry = Entry(key: string, deviceId: string, sessionId: string)

  /** An identifier that is one ordinary path component. */
  predicate SafeIdentifier(text: string) {
    text != "" && text != "." && text != ".." && '/' !in text && '\\' !in text
  }

  predicate SafeEntry(e: Entry) {
    SafeIdentifier(e.deviceId) && SafeIdentifier(e.sessionId)
  }

  function Source(e: Entry): (p: Path)
    ensures InTrash(p) <==> Name(e.deviceId) == TRASH
  {
    var device := Child(Root, Name(e.deviceId));
    assert InTrash(device) <==> Name(e.deviceId) == TRASH;
    Child(device, Name(e.sessionId))
  }

  // ---------------------------------------------------------------- store

  datatype LeaseKind = DeleteLease | UploadLease

  datatype Lease = Lease(operationId: string, kind: LeaseKind)

  datatype IntentState = Staged | Committed

  datatype Intent = Intent(
    operationId: string, entryKey: string, sourcePath: Path, trashPath: Path, expectedRevision: nat,
    state: IntentState)

  datatype Store = Store(
    revision: nat, library: map<string, string>, leases: map<string, Lease>, intents: seq<Intent>)
  {
    /** All leases or none. */
    function AcquireLeases(op: string, keys: set<string>): Store {
      if keys !! leases.Keys then this.(leases := leases + map k | k in keys :: Lease(op, DeleteLease)) else this
    }

    function ReleaseLeases(op: string): Store {
      this.(leases := map k | k in leases && leases[k].operationId != op :: leases[k])
    }

    function RecordIntents(added: seq<Intent>): Store {
      this.(intents := intents + added)
    }

    /** The compare-and-set; the revision moves only if a row really disappears. */
    function CommitDelete(op: string, keys: set<string>): Store {
      this.(library := library - keys,
            revision := if keys !! library.Keys then revision else revision + 1,
            intents := seq(|intents|, i requires 0 <= i < |intents| =>
              if intents[i].operationId == op then intents[i].(state := Committed) else intents[i]))
    }

    /** Aborting and finalising both clear the intents and the leases of one operation. */
    function CloseDelete(op: string): Store {
      ReleaseLeases(op).(intents := WithoutOperation(intents, op))
    }
  }

  function WithoutOperation(intents: seq<Intent>, op: string): (r: seq<Intent>)
    ensures forall i :: i in r <==> i in intents && i.operationId != op
  {
    if intents == [] then []
    else if intents[0].operationId == op then WithoutOperation(intents[1..], op)
    else [intents[0]] + WithoutOperation(intents[1..], op)
  }

  datatype World = World(fs: Files, store: Store)
}
