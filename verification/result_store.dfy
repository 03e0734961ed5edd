/** The `processed_images` table behind `ProcessedImageRepository`: a map
    from the entity id to the `ProcessedImage` record, where `save` inserts
    or replaces by id and `findAll` lists every record in no fixed order. */
module ResultStore {
  import opened Prelude

  /** `ProcessedImage`. `processedAt` is the clock reading taken once, when
      the record is constructed; `imageName` may be null in memory although
      its column is not nullable. */
  datatype ProcessedImage = ProcessedImage(
    id: string,
    imageName: Option<string>,
    imageData: Bytes,
    operation: string,
    encryptionMode: string,
    processedAt: int)

  type Store = map<string, ProcessedImage>

  /** Why the database refused a record. */
  datatype SaveError = NullColumn(column: string)

  /** Every record sits under its own id. */
  predicate KeyedById(store: Store) {
    forall k | k in store :: store[k].id == k
  }

  /** Every column is declared non-null; in the model only the name can be
      missing. */
  predicate Persistable(r: ProcessedImage) {
    r.imageName.Some?
  }

  /** `save`: a record with a null column is refused; otherwise it is stored
      under its id, replacing any record with that id. */
  function Save(store: Store, r: ProcessedImage): (res: Result<Store, SaveError>)
    ensures res.Err? <==> !Persistable(r)
    ensures res.Ok? ==> res.value.Keys == store.Keys + {r.id}
    ensures res.Ok? ==> res.value[r.id] == r
    ensures res.Ok? ==> forall k | k in store && k != r.id :: res.value[k] == store[k]
  {
    if r.imageName.None? then Err(NullColumn("image_name")) else Ok(store[r.id := r])
  }

  lemma SaveKeepsKeying(store: Store, r: ProcessedImage)
    requires KeyedById(store)
    requires Save(store, r).Ok?
    ensures KeyedById(Save(store, r).value)
  {
  }

  /** Saving the same record again changes nothing. */
  lemma SaveIdempotent(store: Store, r: ProcessedImage)
    requires Save(store, r).Ok?
    ensures Save(Save(store, r).value, r) == Save(store, r)
  {
    assert store[r.id := r][r.id := r] == store[r.id := r];
  }

  /** Of two saves under one id, the later record is what remains. */
  lemma SaveLastWins(store: Store, r1: ProcessedImage, r2: ProcessedImage)
    requires r1.id == r2.id
    requires Save(store, r1).Ok?
    ensures Save(Save(store, r1).value, r2) == Save(store, r2)
  {
    assert store[r1.id := r1][r2.id := r2] == store[r2.id := r2];
  }

  /** `findAll`: every stored record exactly once, in some order. */
  method FindAll(store: Store) returns (all: seq<ProcessedImage>)
    ensures |all| == |store|
    ensures forall k | k in store :: store[k] in all
    ensures forall i | 0 <= i < |all| :: all[i] in store.Values
    ensures KeyedById(store) ==> forall i, j | 0 <= i < j < |all| :: all[i].id != all[j].id
  {
    all := [];
    var remaining := store.Keys;
    ghost var keys: seq<string> := [];
    while remaining != {}
      invariant remaining <= store.Keys
      invariant |keys| == |all|
      invariant forall i | 0 <= i < |keys| :: keys[i] in store && keys[i] !in remaining && all[i] == store[keys[i]]
      invariant forall i, j | 0 <= i < j < |keys| :: keys[i] != keys[j]
      invariant forall k | k in store && k !in remaining :: store[k] in all
      invariant |all| + |remaining| == |store|
      decreases |remaining|
    {
      var k :| k in remaining;
      all := all + [store[k]];
      keys := keys + [k];
      remaining := remaining - {k};
    }
  }
}
