/** Resumable rotation of the key-encryption key: the durable job, the key ring, and every wrapped record. */
module KekRotation {
  import opened Bytes

  type Key = Digest

  /** What a wrapped key is bound to. */
  datatype Context = Context(kind: nat, objectId: Id, objectVersion: u64)

  /** Authenticated wrapping: seal and open by key, context and nonce. */
  datatype Cipher = Cipher(seal: (Key, Context, bytes, bytes) -> bytes,
                           open: (Key, Context, bytes, bytes) -> Option<bytes>)

  ghost predicate Lawful(c: Cipher) {
    forall k: Key, x: Context, n: bytes, p: bytes :: c.open(k, x, n, c.seal(k, x, n, p)) == Some(p)
  }

  datatype Stage = Auxiliary | NamespaceMetadata | SecretMetadata | SecretVersions | Finalize

  function Position(stage: Stage): nat {
    match stage
    case Auxiliary => 0
    case NamespaceMetadata => 1
    case SecretMetadata => 2
    case SecretVersions => 3
    case Finalize => 4
  }

  function Next(stage: Stage): Stage
    requires stage != Finalize
  {
    match stage
    case Auxiliary => NamespaceMetadata
    case NamespaceMetadata => SecretMetadata
    case SecretMetadata => SecretVersions
    case SecretVersions => Finalize
  }

  /** A row of the table that a stage scans. */
  datatype ItemKey = ItemKey(stage: Stage, rowId: nat)

  datatype Wrapped = Wrapped(context: Context, kekVersion: u32, nonce: bytes, wrapped: bytes)

  datatype KeyState = Active | Retiring | Retired

  datatype Registered = Registered(state: KeyState, objectId: Id, nonce: bytes, wrapped: bytes)

  datatype Job = Job(source: u32, target: u32, stage: Stage, lastRowId: nat)

  /**
   * The database: whether service is normal, the active version, the key registry, the unfinished job, the records of
   * the six rewrap kinds, and the policy and service-identity records, which no stage scans.
   */
  datatype Disk = Disk(ready: bool, active: u32, registry: map<u32, Registered>, job: Option<Job>,
                       items: map<ItemKey, Wrapped>, others: map<Id, Wrapped>)

  type Ring = map<u32, Key>

  datatype RotationError = Conflict | InvalidInput | NotFound | StateConflict

  // ----- Opening -----

  /** `decrypt_record`'s first half: the data key, if the ring holds the wrapping key and the wrapping opens. */
  function Open(c: Cipher, ring: Ring, w: Wrapped): Option<bytes> {
    if w.kekVersion in ring then c.open(ring[w.kekVersion], w.context, w.nonce, w.wrapped) else None
  }

  /** Every record's data key. */
  function Contents<K(!new)>(c: Cipher, ring: Ring, items: map<K, Wrapped>): map<K, Option<bytes>> {
    map k | k in items :: Open(c, ring, items[k])
  }

  function RootContext(version: u32, objectId: Id): Context {
    Context(0, objectId, version)
  }

  /** The key a registry row holds under the root key. */
  function Unwrapped(c: Cipher, root: Key, version: u32, r: Registered): Option<bytes> {
    c.open(root, RootContext(version, r.objectId), r.nonce, r.wrapped)
  }

  // ----- What every public call keeps -----

  function Live(d: Disk): set<u32> {
    set v | v in d.registry && d.registry[v].state != Retired
  }

  /** `validate_kek_registry_state` for an activated installation. */
  predicate RegistryValid(d: Disk) {
    if d.ready then
      && d.job.None? && Live(d) == {d.active} && d.registry[d.active].state == Active
    else
      && d.job.Some? && Live(d) == {d.job.value.source, d.job.value.target} && d.active == d.job.value.target
      && d.job.value.source != d.job.value.target
      && d.registry[d.job.value.target].state == Active && d.registry[d.job.value.source].state == Retiring
  }

  /**
   * The registry is accepted exactly when one version is active and, during a rotation, one other is retiring, as its
   * job says; all others are retired.
   */
  lemma RegistryValidIff(d: Disk)
    ensures RegistryValid(d) <==>
            && d.active in d.registry && d.registry[d.active].state == Active
            && if d.ready then
                 d.job == None && forall v :: v in d.registry && v != d.active ==> d.registry[v].state == Retired
               else
                 && d.job.Some? && d.job.value.target == d.active && d.job.value.source != d.active
                 && d.job.value.source in d.registry && d.registry[d.job.value.source].state == Retiring
                 && forall v :: v in d.registry && v != d.active && v != d.job.value.source ==>
                      d.registry[v].state == Retired
  {
    assert forall v :: v in d.registry && d.registry[v].state != Retired ==> v in Live(d);
    var active := d.active in d.registry && d.registry[d.active].state == Active;
    if active && forall v :: v in d.registry && v != d.active ==> d.registry[v].state == Retired {
      assert Live(d) == {d.active};
    }
    if active && d.job.Some? && d.job.value.source in d.registry && d.registry[d.job.value.source].state == Retiring
       && forall v :: v in d.registry && v != d.active && v != d.job.value.source ==> d.registry[v].state == Retired
    {
      assert Live(d) == {d.job.value.source, d.active};
    }
    if RegistryValid(d) {
      assert d.active in Live(d) && (d.job.Some? ==> d.job.value.source in Live(d));
    }
  }

  /** The ring is what a restart would rebuild from the registry. */
  ghost predicate RingMatches(c: Cipher, root: Key, d: Disk, ring: Ring) {
    ring.Keys == Live(d) && forall v :: v in ring ==> Unwrapped(c, root, v, d.registry[v]) == Some(ring[v])
  }

  /** The record is wrapped by a key in the ring and holds a full-width data key. */
  ghost predicate Readable(c: Cipher, ring: Ring, w: Wrapped) {
    Open(c, ring, w).Some? && |Open(c, ring, w).value| == 32
  }

  /** The scan has not reached this row yet. */
  predicate Ahead(job: Job, k: ItemKey) {
    Position(k.stage) > Position(job.stage) || (k.stage == job.stage && k.rowId > job.lastRowId)
  }

  ghost predicate ItemSound(c: Cipher, d: Disk, ring: Ring, k: ItemKey)
    requires k in d.items
  {
    && k.rowId > 0 && k.stage != Finalize && Readable(c, ring, d.items[k])
    && (d.job.Some? && d.items[k].kekVersion == d.job.value.source ==> Ahead(d.job.value, k))
  }

  ghost predicate Sound(c: Cipher, root: Key, d: Disk, ring: Ring) {
    && RegistryValid(d) && RingMatches(c, root, d, ring)
    && (forall v :: v in d.registry ==> v <= d.active)
    && (forall id :: id in d.others ==> d.others[id].kekVersion <= d.active)
    && (forall k {:trigger ItemSound(c, d, ring, k)} :: k in d.items ==> ItemSound(c, d, ring, k))
  }

  /** Wraps one of the vault's own keys under version 1. */
  function FirstWrap(c: Cipher, key: Key, vaultKey: Key, context: Context, nonce: bytes): Wrapped {
    Wrapped(context, 1, nonce, c.seal(key, context, nonce, vaultKey))
  }

  /** The database as initialization activates it: key version 1 under the root key, three vault keys under that. */
  function Initialized(c: Cipher, root: Key, key: Key, objectId: Id, nonce: bytes, keys: (Key, Key, Key),
                       contexts: (Context, Context, Context)): Disk
  {
    Disk(true, 1, map[1 := Registered(Active, objectId, nonce, c.seal(root, RootContext(1, objectId), nonce, key))],
         None,
         map[ItemKey(Auxiliary, 1) := FirstWrap(c, key, keys.0, contexts.0, nonce),
             ItemKey(Auxiliary, 2) := FirstWrap(c, key, keys.1, contexts.1, nonce),
             ItemKey(Auxiliary, 3) := FirstWrap(c, key, keys.2, contexts.2, nonce)], map[])
  }

  /** A fresh vault is sound, so everything proved of sound vaults holds from initialization on. */
  lemma InitializedIsSound(c: Cipher, root: Key, key: Key, objectId: Id, nonce: bytes, keys: (Key, Key, Key),
                           contexts: (Context, Context, Context))
    requires Lawful(c)
    ensures Sound(c, root, Initialized(c, root, key, objectId, nonce, keys, contexts), map[1 := key])
  {
    var d := Initialized(c, root, key, objectId, nonce, keys, contexts);
    assert Live(d) == {1};
  }

  /** The records still wrapped by the source key. */
  ghost function Unrotated(d: Disk): set<ItemKey>
    requires d.job.Some?
  {
    set k | k in d.items && d.items[k].kekVersion == d.job.value.source
  }

  function StagesLeft(d: Disk): nat
    requires d.job.Some?
  {
    4 - Position(d.job.value.stage)
  }

  // ----- Transitions -----

  /** `rewrap_item` and `update_rewrap` on one row. */
  function Rewrapped(c: Cipher, ring: Ring, job: Job, w: Wrapped, nonce: bytes): Wrapped
    requires job.target in ring && Open(c, ring, w).Some?
  {
    Wrapped(w.context, job.target, nonce, c.seal(ring[job.target], w.context, nonce, Open(c, ring, w).value))
  }

  lemma RewrapKeepsSound(c: Cipher, root: Key, d: Disk, ring: Ring, k: ItemKey, nonce: bytes)
    requires Lawful(c) && Sound(c, root, d, ring) && d.job.Some? && k in d.items
    ensures d.job.value.target in ring && Open(c, ring, d.items[k]).Some?
    ensures Sound(c, root, d.(items := d.items[k := Rewrapped(c, ring, d.job.value, d.items[k], nonce)]), ring)
  {
    assert ItemSound(c, d, ring, k);
    var w := Rewrapped(c, ring, d.job.value, d.items[k], nonce);
    var next := d.(items := d.items[k := w]);
    assert Open(c, ring, w) == Open(c, ring, d.items[k]);
    assert Live(next) == Live(d);
    forall x | x in next.items
      ensures ItemSound(c, next, ring, x)
    {
      assert ItemSound(c, d, ring, x);
    }
  }

  /** A rewrapped row holds the same data key, and one record fewer is wrapped by the source key. */
  lemma RewrapKeepsMeaning(c: Cipher, d: Disk, ring: Ring, k: ItemKey, nonce: bytes)
    requires Lawful(c) && d.job.Some? && d.job.value.source != d.job.value.target && k in d.items
    requires d.job.value.target in ring && Open(c, ring, d.items[k]).Some?
    ensures var next := d.(items := d.items[k := Rewrapped(c, ring, d.job.value, d.items[k], nonce)]);
            Contents(c, ring, next.items) == Contents(c, ring, d.items) && Unrotated(next) == Unrotated(d) - {k}
  {
  }

  /** Moving the checkpoint past rows that are no longer wrapped by the source key. */
  lemma CheckpointKeepsSound(c: Cipher, root: Key, d: Disk, ring: Ring, job: Job)
    requires Sound(c, root, d, ring) && d.job.Some? && job.source == d.job.value.source
             && job.target == d.job.value.target
    requires forall k :: k in Unrotated(d) ==> Ahead(job, k)
    ensures Sound(c, root, d.(job := Some(job)), ring)
  {
    var next := d.(job := Some(job));
    assert Live(next) == Live(d);
    forall k | k in next.items
      ensures ItemSound(c, next, ring, k)
    {
      assert ItemSound(c, d, ring, k);
      assert d.items[k].kekVersion == job.source ==> k in Unrotated(d);
    }
  }

  /** `begin_kek_rotation` and `install_active_kek`. */
  function Begun(d: Disk, target: u32, r: Registered): Disk
    requires d.active in d.registry && d.active < target
  {
    Disk(false, target, d.registry[d.active := d.registry[d.active].(state := Retiring)][target := r],
         Some(Job(d.active, target, Auxiliary, 0)), d.items, d.others)
  }

  lemma BeginKeepsSound(c: Cipher, root: Key, d: Disk, ring: Ring, key: Key, r: Registered)
    requires Lawful(c) && Sound(c, root, d, ring) && d.ready && d.active < 0xFFFF_FFFF
    requires r.state == Active && Unwrapped(c, root, d.active + 1, r) == Some(key)
    ensures d.active in d.registry && Sound(c, root, Begun(d, d.active + 1, r), ring[d.active + 1 := key])
    ensures Contents(c, ring[d.active + 1 := key], d.items) == Contents(c, ring, d.items)
    ensures Contents(c, ring[d.active + 1 := key], d.others) == Contents(c, ring, d.others)
  {
    assert d.active in Live(d);
    var next, ring' := Begun(d, d.active + 1, r), ring[d.active + 1 := key];
    assert d.active + 1 !in d.registry;
    forall v
      ensures v in Live(next) <==> v == d.active || v == d.active + 1
    {
      assert v in Live(d) <==> v == d.active;
    }
    assert Live(next) == {d.active, d.active + 1};
    assert ring'.Keys == Live(next);
    forall k | k in next.items
      ensures ItemSound(c, next, ring', k) && Open(c, ring', d.items[k]) == Open(c, ring, d.items[k])
    {
      assert ItemSound(c, d, ring, k);
    }
  }

  /** `finish_kek_rotation`. */
  function Finished(d: Disk): Disk
    requires d.job.Some? && d.job.value.source in d.registry
  {
    d.(ready := true, job := None,
       registry := d.registry[d.job.value.source := d.registry[d.job.value.source].(state := Retired)])
  }

  lemma FinishKeepsSound(c: Cipher, root: Key, d: Disk, ring: Ring)
    requires Sound(c, root, d, ring) && d.job.Some? && Unrotated(d) == {}
    ensures d.job.value.source in d.registry && d.job.value.source in ring
    ensures Sound(c, root, Finished(d), ring - {d.job.value.source})
    ensures Contents(c, ring - {d.job.value.source}, d.items) == Contents(c, ring, d.items)
  {
    var source := d.job.value.source;
    assert source in Live(d);
    var next, ring' := Finished(d), ring - {source};
    forall v
      ensures v in Live(next) <==> v == d.active
    {
      assert v in Live(d) <==> v == source || v == d.active;
    }
    assert Live(next) == {d.active} && ring'.Keys == Live(next);
    forall k | k in next.items
      ensures ItemSound(c, next, ring', k) && Open(c, ring', d.items[k]) == Open(c, ring, d.items[k])
    {
      assert ItemSound(c, d, ring, k);
      assert k !in Unrotated(d);
    }
  }

  lemma Least(s: set<nat>) returns (m: nat)
    requires s != {}
    ensures m in s && forall x :: x in s ==> m <= x
  {
    m :| m in s;
    if s != {m} {
      var first := m;
      var l := Least(s - {first});
      m := if l <= first then l else first;
      forall x | x in s
        ensures m <= x
      {
        assert x == first || x in s - {first};
      }
    }
  }

  /** `ORDER BY rowid LIMIT`. */
  method FirstRows(due: set<nat>, limit: nat) returns (batch: seq<nat>)
    requires limit > 0
    ensures |batch| <= limit && (batch == [] <==> due == {})
    ensures forall i :: 0 <= i < |batch| ==> batch[i] in due
    ensures forall i, j :: 0 <= i < j < |batch| ==> batch[i] < batch[j]
    ensures batch != [] ==> forall x :: x in due ==> x in batch || x > batch[|batch| - 1]
  {
    batch := [];
    var left := due;
    while left != {} && |batch| < limit
      invariant |batch| <= limit && left <= due && (batch == [] ==> left == due)
      invariant forall x :: x in due ==> x in batch || x in left
      invariant forall i :: 0 <= i < |batch| ==> batch[i] in due
      invariant forall i, j :: 0 <= i < j < |batch| ==> batch[i] < batch[j]
      invariant forall i, x :: 0 <= i < |batch| && x in left ==> batch[i] < x
      decreases limit - |batch|
    {
      ghost var m := Least(left);
      var least :| least in left && forall x :: x in left ==> least <= x;
      left := left - {least};
      batch := batch + [least];
    }
    assert batch != [] ==> batch[0] in due;
  }

  /** The rows of the current stage that the scan still has to visit. */
  function Due(d: Disk, after: nat): set<nat>
    requires d.job.Some?
  {
    set k | k in d.items && k.stage == d.job.value.stage && d.items[k].kekVersion == d.job.value.source
    && k.rowId > after
          :: k.rowId
  }

  lemma DueIsItem(d: Disk, after: nat, row: nat)
    requires d.job.Some? && row in Due(d, after)
    ensures ItemKey(d.job.value.stage, row) in d.items
    ensures d.items[ItemKey(d.job.value.stage, row)].kekVersion == d.job.value.source && row > after
  {
  }

  /** The rows after the checkpoint that a batch covers. */
  ghost predicate IsBatch(d: Disk, batch: seq<nat>)
    requires d.job.Some?
  {
    && (forall i :: 0 <= i < |batch| ==> batch[i] in Due(d, d.job.value.lastRowId))
    && (forall i, j :: 0 <= i < j < |batch| ==> batch[i] < batch[j])
    && (batch != [] ==> forall x :: x in Due(d, d.job.value.lastRowId) ==> x in batch || x > batch[|batch| - 1])
  }

  /** `next_rewrap_batch`: the first rows due after the checkpoint, in row order, at most `limit`. */
  method NextBatch(d: Disk, limit: nat) returns (batch: seq<nat>)
    requires d.job.Some? && limit > 0
    ensures |batch| <= limit && (batch == [] <==> Due(d, d.job.value.lastRowId) == {}) && IsBatch(d, batch)
  {
    batch := FirstRows(Due(d, d.job.value.lastRowId), limit);
  }

  ghost function Rows(stage: Stage, batch: seq<nat>): set<ItemKey> {
    set j | 0 <= j < |batch| :: ItemKey(stage, batch[j])
  }

  lemma {:induction false} RowsAreFew(stage: Stage, batch: seq<nat>)
    ensures |Rows(stage, batch)| <= |batch|
    decreases |batch|
  {
    if batch == [] {
      assert Rows(stage, batch) == {};
    } else {
      var n := |batch| - 1;
      RowsAreFew(stage, batch[..n]);
      assert Rows(stage, batch) == Rows(stage, batch[..n]) + {ItemKey(stage, batch[n])};
    }
  }

  /** Taking a batch away leaves at most the batch less. */
  lemma FewTaken(a: set<ItemKey>, stage: Stage, batch: seq<nat>)
    ensures |a| <= |a - Rows(stage, batch)| + |batch|
  {
    RowsAreFew(stage, batch);
    hide Rows;
    var taken := Rows(stage, batch);
    assert a == (a - taken) + a * taken;
    assert taken == (taken - a) + a * taken;
  }

  /** That many batches of that size account for the difference. */
  ghost predicate Accounts(was: nat, now: nat, batches: nat, size: nat) {
    was <= now + batches * size
  }

  lemma SameCount(n: nat, size: nat)
    ensures Accounts(n, n, 0, size)
  {
  }

  lemma OneMoreBatch(was: nat, mid: nat, now: nat, batches: nat, size: nat, batch: nat)
    requires Accounts(was, mid, batches, size) && mid <= now + batch && batch <= size
    ensures Accounts(was, now, batches + 1, size)
  {
  }

  /** What `resume_kek_rotation` reports. */
  datatype Progress = Progress(batchesCommitted: nat, completed: bool)

  class RotatingVault {
    const cipher: Cipher
    const root: Key
    var disk: Disk
    var ring: Ring

    ghost predicate Valid()
      reads this
    {
      Lawful(cipher) && Sound(cipher, root, disk, ring)
    }

    /** Each rotated record's data key. */
    ghost function Records(): map<ItemKey, Option<bytes>>
      reads this
    {
      Contents(cipher, ring, disk.items)
    }

    constructor (cipher: Cipher, root: Key, disk: Disk, ring: Ring)
      requires Lawful(cipher) && Sound(cipher, root, disk, ring)
      ensures Valid() && this.cipher == cipher && this.root == root && this.disk == disk && this.ring == ring
    {
      this.cipher, this.root, this.disk, this.ring := cipher, root, disk, ring;
    }

    /** `encrypt_record` and the row that stores it: always under the active key. */
    method Write(k: ItemKey, context: Context, dataKey: Key, nonce: bytes)
      requires Valid() && k.rowId > 0 && k.stage != Finalize
      modifies this
      ensures Valid() && disk == old(disk).(items := disk.items) && ring == old(ring)
      ensures Records() == old(Records())[k := Some(dataKey)]
    {
      assert disk.active in Live(disk);
      var w := Wrapped(context, disk.active, nonce, cipher.seal(ring[disk.active], context, nonce, dataKey));
      WriteKeepsSound(cipher, root, disk, ring, k, w, dataKey);
      assert Contents(cipher, ring, disk.items[k := w]) == Contents(cipher, ring, disk.items)[k := Some(dataKey)];
      disk := disk.(items := disk.items[k := w]);
    }

    /** A purge or a replaced row. */
    method Delete(k: ItemKey)
      requires Valid()
      modifies this
      ensures Valid() && disk == old(disk).(items := disk.items) && ring == old(ring)
      ensures Records() == old(Records()) - {k}
    {
      DeleteKeepsSound(cipher, root, disk, ring, k);
      disk := disk.(items := disk.items - {k});
    }

    /** A policy or service-identity record, also under the active key. */
    method WriteOther(id: Id, context: Context, dataKey: Key, nonce: bytes)
      requires Valid()
      modifies this
      ensures Valid() && disk == old(disk).(others := disk.others) && ring == old(ring) && Records() == old(Records())
      ensures Contents(cipher, ring, disk.others) == old(Contents(cipher, ring, disk.others))[id := Some(dataKey)]
    {
      assert disk.active in Live(disk);
      var w := Wrapped(context, disk.active, nonce, cipher.seal(ring[disk.active], context, nonce, dataKey));
      OtherKeepsSound(cipher, root, disk, ring, id, w);
      disk := disk.(others := disk.others[id := w]);
    }

    /** `start_kek_rotation`. */
    method Start(newKey: Key, objectId: Id, nonce: bytes) returns (r: Result<Job, RotationError>)
      requires Valid()
      modifies this
      ensures Valid() && Records() == old(Records()) && disk.others == old(disk.others)
      ensures r.Ok? <==> old(disk.ready) && old(disk.active) < 0xFFFF_FFFF
      ensures r.Ok? ==>
              disk.job == Some(r.value) && r.value == Job(old(disk.active), old(disk.active) + 1, Auxiliary, 0)
      ensures r.Ok? ==> disk.items == old(disk.items) && ring == old(ring)[disk.active := newKey]
      ensures r.Err? ==> disk == old(disk) && ring == old(ring)
    {
      if disk.job.Some? {
        return Err(Conflict);
      }
      var source := disk.active;
      if source == 0xFFFF_FFFF {
        return Err(Conflict);
      }
      var target := source + 1;
      var context := RootContext(target, objectId);
      var registered := Registered(Active, objectId, nonce, cipher.seal(root, context, nonce, newKey));
      BeginKeepsSound(cipher, root, disk, ring, newKey, registered);
      disk := Begun(disk, target, registered);
      ring := ring[target := newKey];
      return Ok(disk.job.value);
    }

    /** `rewrap_item` over a batch, `apply_rewrap_batch`: rewraps the rows and moves the checkpoint past them. */
    method RewrapBatch(batch: seq<nat>)
      requires Valid() && disk.job.Some? && batch != [] && IsBatch(disk, batch)
      modifies this
      ensures Valid() && Records() == old(Records()) && ring == old(ring)
      ensures disk == old(disk).(items := disk.items, job := disk.job) && disk.job.Some?
      ensures disk.job.value == old(disk.job.value).(lastRowId := batch[|batch| - 1])
      ensures Unrotated(disk) < old(Unrotated(disk)) && |old(Unrotated(disk))| <= |Unrotated(disk)| + |batch|
    {
      hide Sound, Lawful, Contents, Unrotated, IsBatch, Due, Rewrapped;
      ghost var before := disk;
      var stage := disk.job.value.stage;
      for i := 0 to |batch|
        invariant Valid() && Records() == old(Records()) && ring == old(ring)
        invariant disk == before.(items := disk.items) && disk.items.Keys == before.items.Keys
        invariant Unrotated(disk) == Unrotated(before) - Rows(stage, batch[..i])
      {
        var k := ItemKey(stage, batch[i]);
        BatchRow(before, batch, i);
        var nonce: bytes := *;
        RewrapKeepsSound(cipher, root, disk, ring, k, nonce);
        SourceIsNotTarget(cipher, root, disk, ring);
        RewrapKeepsMeaning(cipher, disk, ring, k, nonce);
        disk := disk.(items := disk.items[k := Rewrapped(cipher, ring, disk.job.value, disk.items[k], nonce)]);
        assert Rows(stage, batch[..i + 1]) == Rows(stage, batch[..i]) + {k};
      }
      assert batch[..|batch|] == batch;
      var job := disk.job.value.(lastRowId := batch[|batch| - 1]);
      BatchDone(cipher, root, before, disk, ring, batch, job);
      FewTaken(Unrotated(before), stage, batch);
      disk := disk.(job := Some(job));
    }

    /** `advance_rotation_stage`: only an exhausted stage is left. */
    method AdvanceStage()
      requires Valid() && disk.job.Some? && disk.job.value.stage != Finalize
               && Due(disk, disk.job.value.lastRowId) == {}
      modifies this
      ensures Valid() && ring == old(ring) && disk == old(disk).(job := disk.job) && disk.job.Some?
      ensures disk.job.value == old(disk.job.value).(stage := Next(old(disk.job.value.stage)), lastRowId := 0)
    {
      var job := disk.job.value.(stage := Next(disk.job.value.stage), lastRowId := 0);
      StageExhausted(cipher, root, disk, ring, job);
      CheckpointKeepsSound(cipher, root, disk, ring, job);
      disk := disk.(job := Some(job));
    }

    /** `finish_kek_rotation` and `retire_kek`. */
    method Finish()
      requires Valid() && disk.job.Some? && disk.job.value.stage == Finalize
      modifies this
      ensures Valid() && Records() == old(Records()) && disk.ready && disk.job.None?
      ensures forall id :: id in disk.others ==>
                Open(cipher, ring, disk.others[id])
                == if disk.others[id].kekVersion == old(disk.job.value.source) then None
                   else Open(cipher, old(ring), disk.others[id])
      ensures disk.items == old(disk.items) && disk.others == old(disk.others) && disk.active == old(disk.active)
      ensures ring == old(ring) - {old(disk.job.value.source)}
      ensures forall k :: k in disk.items ==> disk.items[k].kekVersion != old(disk.job.value.source)
    {
      NothingUnrotated(cipher, root, disk, ring);
      FinishKeepsSound(cipher, root, disk, ring);
      assert forall k :: k in disk.items ==> k !in Unrotated(disk);
      var source := disk.job.value.source;
      disk := Finished(disk);
      ring := ring - {source};
    }

    /** `resume_kek_rotation`. */
    method Resume(maxBatches: nat, batchSize: nat) returns (r: Result<Progress, RotationError>)
      requires Valid()
      modifies this
      ensures Valid() && Records() == old(Records()) && disk.others == old(disk.others)
      ensures r.Ok? <==> maxBatches > 0 && 0 < batchSize <= 256 && old(disk.job).Some?
      ensures r.Err? ==> disk == old(disk) && ring == old(ring)
      ensures r.Ok? && r.value.completed ==> disk.ready && ring == old(ring) - {old(disk.job).value.source}
      ensures r.Ok? && r.value.completed ==>
              forall k :: k in disk.items ==> disk.items[k].kekVersion != old(disk.job).value.source
      ensures r.Ok? && !r.value.completed ==> StillRunning(old(disk), disk) && ring == old(ring)
      ensures r.Ok? && !r.value.completed ==>
              Unrotated(disk) < Unrotated(old(disk)) && r.value.batchesCommitted == maxBatches
      ensures r.Ok? ==>
              && r.value.batchesCommitted <= maxBatches
              && Accounts(|Unrotated(old(disk))|, if r.value.completed then 0 else |Unrotated(disk)|,
                          r.value.batchesCommitted, batchSize)
    {
      if maxBatches == 0 || batchSize == 0 || batchSize > 256 {
        return Err(InvalidInput);
      }
      if disk.job.None? {
        return Err(NotFound);
      }
      hide Sound, Lawful, Contents, Due, IsBatch, Accounts;
      var batches := 0;
      assert Accounts(|Unrotated(disk)|, |Unrotated(disk)|, 0, batchSize) by {
        SameCount(|Unrotated(disk)|, batchSize);
      }
      while true
        invariant Valid() && Records() == old(Records()) && ring == old(ring) && StillRunning(old(disk), disk)
        invariant 0 <= batches <= maxBatches
        invariant Accounts(|Unrotated(old(disk))|, |Unrotated(disk)|, batches, batchSize)
        invariant Unrotated(disk) <= Unrotated(old(disk)) && (batches > 0 ==> Unrotated(disk) < Unrotated(old(disk)))
        decreases StagesLeft(disk), Unrotated(disk)
      {
        if disk.job.value.stage == Finalize {
          NothingUnrotated(cipher, root, disk, ring);
          Finish();
          return Ok(Progress(batches, true));
        }
        if batches == maxBatches {
          return Ok(Progress(batches, false));
        }
        var batch := NextBatch(disk, batchSize);
        if batch == [] {
          AdvanceStage();
        } else {
          ghost var mid := |Unrotated(disk)|;
          RewrapBatch(batch);
          OneMoreBatch(|Unrotated(old(disk))|, mid, |Unrotated(disk)|, batches, batchSize, |batch|);
          batches := batches + 1;
        }
      }
    }

    /** `rotate_kek_to_completion`. */
    method RotateToCompletion(newKey: Key, objectId: Id, nonce: bytes) returns (r: Result<(), RotationError>)
      requires Valid()
      modifies this
      ensures Valid() && Records() == old(Records()) && disk.others == old(disk.others)
      ensures r.Ok? <==> old(disk.ready) && old(disk.active) < 0xFFFF_FFFF
      ensures r.Err? ==> disk == old(disk) && ring == old(ring)
      ensures r.Ok? ==> disk.ready && ring == old(ring)[old(disk.active) + 1 := newKey] - {old(disk.active)}
      ensures r.Ok? ==> forall k :: k in disk.items ==> disk.items[k].kekVersion != old(disk.active)
      ensures r.Ok? ==> forall id :: id in disk.others ==> Open(cipher, ring, disk.others[id]) == None
    {
      RingWhenReady(cipher, root, disk, ring);
      var started := Start(newKey, objectId, nonce);
      if started.Err? {
        return Err(started.error);
      }
      hide Sound, Lawful, Contents;
      ghost var begun, ring0 := disk, ring;
      var completed := false;
      while !completed
        invariant Valid() && Records() == old(Records()) && disk.others == old(disk.others)
        invariant !completed ==> StillRunning(begun, disk) && ring == ring0
        invariant completed ==> disk.ready && ring == ring0 - {begun.job.value.source}
        invariant completed ==> forall k :: k in disk.items ==> disk.items[k].kekVersion != begun.job.value.source
        decreases !completed, if disk.job.Some? then Unrotated(disk) else {}
      {
        var progress := Resume(64, 64);
        completed := progress.value.completed;
      }
      return Ok(());
    }

    /** Start-up: the key ring is rebuilt from the registry; only the database survives a crash. */
    method Restart() returns (r: Result<(), RotationError>)
      requires Lawful(cipher) && exists before :: Sound(cipher, root, disk, before)
      modifies this`ring
      ensures r.Ok? && Valid()
      ensures forall before :: Sound(cipher, root, disk, before) ==> ring == before
    {
      ghost var before :| Sound(cipher, root, disk, before);
      if !RegistryValid(disk) {
        return Err(StateConflict);
      }
      var keys := RebuildRing(cipher, root, disk, before);
      if keys.None? || disk.active !in keys.value {
        return Err(StateConflict);
      }
      ring := keys.value;
      forall other | Sound(cipher, root, disk, other)
        ensures ring == other
      {
        RingUnique(cipher, root, disk, ring, other);
      }
      return Ok(());
    }
  }

  lemma RingUnique(c: Cipher, root: Key, d: Disk, a: Ring, b: Ring)
    requires RingMatches(c, root, d, a) && RingMatches(c, root, d, b)
    ensures a == b
  {
    forall v | v in a
      ensures v in b && a[v] == b[v]
    {
      assert v in Live(d) && v in b;
      assert Some(a[v]) == Unwrapped(c, root, v, d.registry[v]) == Some(b[v]);
    }
  }

  /** The loop of `initialize_vault` over the registered keys. */
  method RebuildRing(c: Cipher, root: Key, d: Disk, ghost before: Ring) returns (r: Option<Ring>)
    requires RingMatches(c, root, d, before)
    ensures r == Some(before)
  {
    var todo := Live(d);
    var keys: Ring := map[];
    while todo != {}
      invariant todo <= before.Keys && keys.Keys == before.Keys - todo
      invariant forall v :: v in keys ==> v in before && keys[v] == before[v]
      decreases todo
    {
      hide Live;
      var v :| v in todo;
      assert v in before;
      var key := Unwrapped(c, root, v, d.registry[v]);
      if key.None? || |key.value| != 32 {
        return None;
      }
      keys := keys[v := key.value];
      todo := todo - {v};
    }
    assert keys == before;
    return Some(keys);
  }

  lemma BatchRow(d: Disk, batch: seq<nat>, i: nat)
    requires d.job.Some? && IsBatch(d, batch) && i < |batch|
    ensures ItemKey(d.job.value.stage, batch[i]) in d.items
  {
    DueIsItem(d, d.job.value.lastRowId, batch[i]);
  }

  lemma WriteKeepsSound(c: Cipher, root: Key, d: Disk, ring: Ring, k: ItemKey, w: Wrapped, dataKey: Key)
    requires Lawful(c) && Sound(c, root, d, ring) && k.rowId > 0 && k.stage != Finalize
    requires w.kekVersion == d.active && Open(c, ring, w) == Some(dataKey)
    ensures Sound(c, root, d.(items := d.items[k := w]), ring)
  {
    var next := d.(items := d.items[k := w]);
    assert Live(next) == Live(d);
    forall x | x in next.items
      ensures ItemSound(c, next, ring, x)
    {
      if x != k {
        assert ItemSound(c, d, ring, x);
      }
    }
  }

  lemma OtherKeepsSound(c: Cipher, root: Key, d: Disk, ring: Ring, id: Id, w: Wrapped)
    requires Sound(c, root, d, ring) && w.kekVersion == d.active
    ensures Sound(c, root, d.(others := d.others[id := w]), ring)
  {
    var next := d.(others := d.others[id := w]);
    assert Live(next) == Live(d);
    forall k | k in next.items
      ensures ItemSound(c, next, ring, k)
    {
      assert ItemSound(c, d, ring, k);
    }
  }

  lemma SourceIsNotTarget(c: Cipher, root: Key, d: Disk, ring: Ring)
    requires Sound(c, root, d, ring) && d.job.Some?
    ensures d.job.value.source != d.job.value.target
  {
  }

  lemma RingWhenReady(c: Cipher, root: Key, d: Disk, ring: Ring)
    requires Sound(c, root, d, ring)
    ensures d.ready ==> ring.Keys == {d.active}
    ensures forall id :: id in d.others ==> d.others[id].kekVersion <= d.active
  {
  }

  /**
   * Retiring the source key keeps every policy and service-identity record readable exactly when none is wrapped by
   * it.
   */
  lemma OthersSurviveIff(c: Cipher, ring: Ring, others: map<Id, Wrapped>, source: u32)
    requires forall id :: id in others ==> Open(c, ring, others[id]).Some?
    ensures (forall id :: id in others ==> Open(c, ring - {source}, others[id]).Some?)
            <==> (forall id :: id in others ==> others[id].kekVersion != source)
  {
    if forall id :: id in others ==> Open(c, ring - {source}, others[id]).Some? {
      forall id | id in others
        ensures others[id].kekVersion != source
      {
        assert Open(c, ring - {source}, others[id]).Some?;
      }
    }
  }

  lemma DeleteKeepsSound(c: Cipher, root: Key, d: Disk, ring: Ring, k: ItemKey)
    requires Sound(c, root, d, ring)
    ensures Sound(c, root, d.(items := d.items - {k}), ring)
    ensures Contents(c, ring, d.items - {k}) == Contents(c, ring, d.items) - {k}
  {
    var next := d.(items := d.items - {k});
    assert Live(next) == Live(d);
    forall x | x in next.items
      ensures ItemSound(c, next, ring, x)
    {
      assert ItemSound(c, d, ring, x);
    }
  }

  lemma BatchDone(c: Cipher, root: Key, before: Disk, d: Disk, ring: Ring, batch: seq<nat>, job: Job)
    requires Sound(c, root, before, ring) && Sound(c, root, d, ring) && before.job.Some? && batch != []
    requires d == before.(items := d.items) && job == before.job.value.(lastRowId := batch[|batch| - 1])
    requires IsBatch(before, batch) && Unrotated(d) == Unrotated(before) - Rows(job.stage, batch)
    ensures Contents(c, ring, d.(job := Some(job)).items) == Contents(c, ring, d.items)
    ensures Sound(c, root, d.(job := Some(job)), ring)
    ensures Unrotated(d.(job := Some(job))) < Unrotated(before) && Unrotated(d.(job := Some(job))) == Unrotated(d)
  {
    forall k | k in Unrotated(d)
      ensures Ahead(job, k)
    {
      assert k in Unrotated(before) && ItemSound(c, before, ring, k);
      if k.stage == job.stage {
        assert k.rowId in Due(before, before.job.value.lastRowId);
        assert k !in Rows(job.stage, batch);
      }
    }
    CheckpointKeepsSound(c, root, d, ring, job);
    var k := ItemKey(job.stage, batch[0]);
    DueIsItem(before, before.job.value.lastRowId, batch[0]);
    assert k in Unrotated(before) && k in Rows(job.stage, batch);
  }

  /** The same rotation, at this or a later checkpoint. */
  ghost predicate StillRunning(was: Disk, now: Disk) {
    && was.job.Some? && now.job.Some? && now.ready == was.ready
    && now.job.value.source == was.job.value.source && now.job.value.target == was.job.value.target
    && now.active == was.active && now.registry == was.registry && now.others == was.others
  }

  lemma StageExhausted(c: Cipher, root: Key, d: Disk, ring: Ring, job: Job)
    requires Sound(c, root, d, ring) && d.job.Some? && d.job.value.stage != Finalize
             && Due(d, d.job.value.lastRowId) == {}
    requires job == d.job.value.(stage := Next(d.job.value.stage), lastRowId := 0)
    ensures forall k :: k in Unrotated(d) ==> Ahead(job, k)
  {
    forall k | k in Unrotated(d)
      ensures Ahead(job, k)
    {
      assert ItemSound(c, d, ring, k);
      if k.stage == d.job.value.stage {
        UnrotatedIsDue(d, k, d.job.value.lastRowId);
      }
    }
  }

  lemma UnrotatedIsDue(d: Disk, k: ItemKey, after: nat)
    requires d.job.Some? && k in Unrotated(d) && k.stage == d.job.value.stage && k.rowId > after
    ensures k.rowId in Due(d, after)
  {
  }

  /** When every stage is done, no record is wrapped by the source key. */
  lemma NothingUnrotated(c: Cipher, root: Key, d: Disk, ring: Ring)
    requires Sound(c, root, d, ring) && d.job.Some? && d.job.value.stage == Finalize
    ensures Unrotated(d) == {}
  {
    forall k | k in d.items
      ensures k !in Unrotated(d)
    {
      assert ItemSound(c, d, ring, k);
    }
  }
}
