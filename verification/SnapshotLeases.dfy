/** Snapshots below a process's store: shared while somebody holds them, kept for good once pinned
    (src/external.rs, lines 283-289, 300-319, 430-456). */
module SnapshotLeases {
  import opened Wrappers
  import opened Text

  datatype ArtifactKey = ArtifactKey(fileName: string, kind: nat, digest: seq<byte>)

  type Key = seq<ArtifactKey>

  type Id = nat

  /** The store's maps, the handles callers hold, and the snapshot directories on disk. The map of snapshots does not
      keep them alive; `loaded` does. */
  datatype Leases = Leases(
    snapshots: map<Key, Id>, loaded: seq<Id>, handles: map<Id, nat>, directories: set<Id>, nextId: Id)
  {
    predicate Held(id: Id) {
      id in handles && handles[id] > 0
    }

    /** Somebody still holds a strong reference. */
    predicate Alive(id: Id) {
      Held(id) || id in loaded
    }

    function Handles(id: Id): nat {
      if id in handles then handles[id] else 0
    }
  }

  datatype Operation =
    | Request(key: Key, written: bool)
    | Share(id: Id)
    | Pin(id: Id)
    | Release(id: Id)

  /** Callers share, pin and release only what they hold. */
  predicate Allowed(s: Leases, op: Operation) {
    match op
    case Request(_, _) => true
    case Share(id) => s.Held(id)
    case Pin(id) => s.Held(id)
    case Release(id) => s.Held(id)
  }

  /** A handle goes; with the last strong reference the directory goes too. */
  function Released(s: Leases, id: Id): Leases
    requires s.Held(id)
  {
    var fewer := s.(handles := s.handles[id := s.handles[id] - 1]);
    if fewer.Alive(id) then fewer else fewer.(directories := fewer.directories - {id})
  }

  function After(s: Leases, op: Operation): Leases
    requires Allowed(s, op)
  {
    match op
    case Request(key, written) =>
      if key in s.snapshots && s.Alive(s.snapshots[key]) then
        s.(handles := s.handles[s.snapshots[key] := s.Handles(s.snapshots[key]) + 1])
      else if !written then s.(nextId := s.nextId + 1)
      else Leases(s.snapshots[key := s.nextId], s.loaded, s.handles[s.nextId := 1], s.directories + {s.nextId},
                  s.nextId + 1)
    case Share(id) => s.(handles := s.handles[id := s.handles[id] + 1])
    case Pin(id) => if id in s.loaded then s else s.(loaded := s.loaded + [id])
    case Release(id) => Released(s, id)
  }

  /** The snapshot a request answers with. */
  function Answer(s: Leases, key: Key, written: bool): Option<Id> {
    if key in s.snapshots && s.Alive(s.snapshots[key]) then Some(s.snapshots[key])
    else if written then Some(s.nextId)
    else None
  }

  const EMPTY := Leases(map[], [], map[], {}, 0)

  /** A directory exists exactly while somebody holds the snapshot, and no two keys share one. */
  ghost predicate Valid(s: Leases) {
    && (forall id :: id in s.directories <==> s.Alive(id))
    && (forall id: Id :: s.Alive(id) ==> id < s.nextId)
    && (forall id :: id in s.handles ==> id < s.nextId)
    && (forall k :: k in s.snapshots ==> s.snapshots[k] < s.nextId)
    && (forall k, l :: k in s.snapshots && l in s.snapshots && s.snapshots[k] == s.snapshots[l] ==> k == l)
    && (forall i, j :: 0 <= i < j < |s.loaded| ==> s.loaded[i] != s.loaded[j])
  }

  lemma {:induction false} OperationKeeps(s: Leases, op: Operation)
    requires Valid(s) && Allowed(s, op)
    ensures Valid(After(s, op))
  {
    var t := After(s, op);
    forall id
      ensures id in t.directories <==> t.Alive(id)
    {
      assert id in s.directories <==> s.Alive(id);
    }
  }

  /** What the operations do to the handles, pins, entries and directories. A request adds one handle to the snapshot it
      answers with: the one of the key that somebody still holds or that is pinned, else a new one with a directory and
      the key's entry, or nothing when its files cannot be written. Sharing adds a handle, pinning a pin. Releasing
      takes a handle, and with the last one of a snapshot that is not pinned its directory. */
  lemma {:induction false} OperationMeans(s: Leases, op: Operation, id: Id)
    requires Valid(s) && Allowed(s, op)
    ensures
      var t := After(s, op);
      var before, now := if id in s.handles then s.handles[id] else 0, if id in t.handles then t.handles[id] else 0;
      match op
      case Request(key, written) =>
        var held :=
          key in s.snapshots
          && (s.snapshots[key] in s.loaded || (s.snapshots[key] in s.handles && s.handles[s.snapshots[key]] > 0));
        && Answer(s, key, written)
          == (if held then Some(s.snapshots[key]) else if written then Some(s.nextId) else None)
        && t.loaded == s.loaded
        && now == before + (if id == (if held then s.snapshots[key] else s.nextId) && (held || written) then 1 else 0)
        && t.snapshots == (if held || !written then s.snapshots else s.snapshots[key := s.nextId])
        && t.directories == (if held || !written then s.directories else s.directories + {s.nextId})
      case Share(other) =>
        && now == before + (if id == other then 1 else 0)
        && t.loaded == s.loaded && t.snapshots == s.snapshots && t.directories == s.directories
      case Pin(other) =>
        && now == before && t.snapshots == s.snapshots && t.directories == s.directories
        && (id in t.loaded <==> id in s.loaded || id == other)
      case Release(other) =>
        && now == before - (if id == other then 1 else 0)
        && t.loaded == s.loaded && t.snapshots == s.snapshots
        && (id in t.directories <==> id in s.directories && !(id == other && now == 0 && id !in s.loaded))
  {
  }

  /** A run of operations, each allowed where it stands. */
  ghost predicate Run(ops: seq<Operation>, states: seq<Leases>) {
    && |states| == |ops| + 1 && states[0] == EMPTY
    && forall i :: 0 <= i < |ops| ==> Allowed(states[i], ops[i]) && states[i + 1] == After(states[i], ops[i])
  }

  lemma {:induction false} RunValid(ops: seq<Operation>, states: seq<Leases>, i: nat)
    requires Run(ops, states) && i < |states|
    ensures Valid(states[i])
    decreases i
  {
    hide After;
    hide Valid;
    if i > 0 {
      RunValid(ops, states, i - 1);
      OperationKeeps(states[i - 1], ops[i - 1]);
      assert states[i - 1 + 1] == After(states[i - 1], ops[i - 1]);
    } else {
      EmptyValid();
    }
  }

  lemma {:induction false} EmptyValid()
    ensures Valid(EMPTY)
  {
  }

  /** Once pinned, a snapshot's directory stays for as long as the process runs, whatever is released. */
  lemma {:induction false} PinnedForGood(ops: seq<Operation>, states: seq<Leases>, i: nat, j: nat, id: Id)
    requires Run(ops, states) && i < j < |states| && ops[i] == Pin(id)
    ensures id in states[j].loaded && id in states[j].directories
    decreases j
  {
    RunValid(ops, states, j);
    assert states[j - 1 + 1] == After(states[j - 1], ops[j - 1]);
    if i < j - 1 {
      PinnedForGood(ops, states, i, j - 1, id);
    }
  }

  /** Pinning again changes nothing. */
  lemma {:induction false} PinIdempotent(s: Leases, id: Id)
    requires Allowed(s, Pin(id))
    ensures Allowed(After(s, Pin(id)), Pin(id)) && After(After(s, Pin(id)), Pin(id)) == After(s, Pin(id))
  {
    assert (s.loaded + [id])[|s.loaded|] == id;
  }

  /** A held snapshot is on disk, a request for its key gets the same one, and a request for another key gets
      another. */
  lemma {:induction false} SharedByKey(ops: seq<Operation>, states: seq<Leases>, i: nat, k: Key, l: Key)
    requires Run(ops, states) && i < |states|
    requires k in states[i].snapshots && states[i].Alive(states[i].snapshots[k])
    ensures states[i].snapshots[k] in states[i].directories
    ensures forall written :: Answer(states[i], k, written) == Some(states[i].snapshots[k])
    ensures k != l ==> forall written :: Answer(states[i], l, written) != Some(states[i].snapshots[k])
  {
    RunValid(ops, states, i);
  }

  /** The store as the process holds it. */
  class ProcessStore {
    var snapshots: map<Key, Id>
    var loaded: seq<Id>
    var handles: map<Id, nat>
    var directories: set<Id>
    var nextId: Id

    constructor ()
      ensures Now() == EMPTY
    {
      snapshots, loaded, handles, directories, nextId := map[], [], map[], {}, 0;
    }

    function Now(): Leases
      reads this
    {
      Leases(snapshots, loaded, handles, directories, nextId)
    }

    /** `snapshot`: the one still held for these artifacts, or a new directory; when its files cannot be written
        the directory goes again. */
    method Snapshot(key: Key, written: bool) returns (r: Option<Id>)
      requires Valid(Now())
      modifies this
      ensures Now() == After(old(Now()), Request(key, written)) && Valid(Now())
      ensures r == Answer(old(Now()), key, written) && (r.Some? ==> r.value in directories)
    {
      OperationKeeps(Now(), Request(key, written));
      hide Valid;
      if key in snapshots && Now().Alive(snapshots[key]) {
        r := Upgrade(key);
      } else {
        r := Fresh(key, written);
      }
    }

    /** The one still held, with one handle more. */
    method Upgrade(key: Key) returns (r: Option<Id>)
      requires Valid(Now()) && key in snapshots && Now().Alive(snapshots[key])
      modifies `handles
      ensures Now()
        == old(Now()).(handles := old(Now()).handles[snapshots[key] := old(Now()).Handles(snapshots[key]) + 1])
      ensures r == Some(snapshots[key]) && snapshots[key] in directories
    {
      var id := snapshots[key];
      handles := handles[id := Now().Handles(id) + 1];
      r := Some(id);
    }

    /** A new directory, dropped again when its files cannot be written. */
    method Fresh(key: Key, written: bool) returns (r: Option<Id>)
      requires Valid(Now())
      modifies this
      ensures nextId == old(nextId) + 1 && loaded == old(loaded)
      ensures !written ==>
        r == None && snapshots == old(snapshots) && handles == old(handles) && directories == old(directories)
      ensures written ==>
        && r == Some(old(nextId)) && snapshots == old(snapshots)[key := old(nextId)]
        && handles == old(handles)[old(nextId) := 1] && directories == old(directories) + {old(nextId)}
    {
      var id := nextId;
      assert id !in directories;
      nextId := nextId + 1;
      directories := directories + {id};
      if !written {
        directories := directories - {id};
        return None;
      }
      snapshots := snapshots[key := id];
      handles := handles[id := 1];
      r := Some(id);
    }

    /** `pin`, by a caller that holds the snapshot. */
    method PinSnapshot(id: Id)
      requires Now().Held(id)
      modifies `loaded
      ensures Now() == After(old(Now()), Pin(id))
      ensures id in loaded
    {
      if id !in loaded {
        loaded := loaded + [id];
      }
    }

    /** Dropping one handle. */
    method DropHandle(id: Id)
      requires Now().Held(id)
      modifies `handles, `directories
      ensures Now() == After(old(Now()), Release(id))
      ensures id in loaded && old(id in directories) ==> id in directories
    {
      handles := handles[id := handles[id] - 1];
      if !Now().Alive(id) {
        directories := directories - {id};
      }
    }
  }
}
