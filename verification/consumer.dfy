/** `ImageMessageConsumer.processImageMessage`: the worker that takes one
    job off the queue, runs the native processor through `CryptoService`
    and upserts the result. Failures are logged and swallowed, so the only
    observable effect is on the store. */
module Consumer {
  import opened Prelude
  import opened Text
  import Domain
  import CryptoService
  import ResultStore

  /** The original name's suffix from its last '.', dot included; "" when
      the name is null or has no dot. */
  function Extension(name: Option<string>): (ext: string)
    ensures name.None? ==> ext == ""
    ensures name.Some? && '.' !in name.value ==> ext == ""
    ensures name.Some? && '.' in name.value ==>
      && |ext| > 0 && ext[0] == '.' && '.' !in ext[1..]
      && EndsWith(name.value, ext)
  {
    if name.Some? && '.' in name.value then
      var n := name.value;
      var i := LastIndexOf(n, '.');
      assert forall c | c in n[i..][1..] :: c != '.' by {
        forall c | c in n[i..][1..] ensures c != '.' {
          var j :| 0 <= j < |n[i..][1..]| && n[i..][1..][j] == c;
          assert n[i + 1 + j] == c;
        }
      }
      n[i..]
    else ""
  }

  /** Any suffix that starts with '.' and holds no other '.' is the
      extension: the characterisation above pins it down. */
  lemma ExtensionUnique(name: string, suffix: string)
    requires '.' in name
    requires |suffix| > 0 && suffix[0] == '.' && '.' !in suffix[1..]
    requires EndsWith(name, suffix)
    ensures suffix == Extension(Some(name))
  {
    var ext := Extension(Some(name));
    var j := |name| - |suffix|;
    var r := LastIndexOf(name, '.');
    assert name[j] == '.' by { assert name[j] == suffix[0]; }
    assert r >= j;
    assert forall i | j < i < |name| :: name[i] == suffix[1..][i - j - 1];
    assert r <= j;
  }

  /** The base name handed to `CryptoService`: the job id and the extension. */
  function WorkFileName(job: Domain.Job): (fileName: string)
    ensures StartsWith(fileName, job.id.text)
    ensures fileName[|job.id.text|..] == Extension(job.imageName)
  {
    job.id.text + Extension(job.imageName)
  }

  /** The record built from a job and the processed bytes; `now` is the
      clock reading the constructor takes. */
  function RecordFor(job: Domain.Job, data: Bytes, now: int): (r: ResultStore.ProcessedImage)
    ensures r.id == job.id.text && r.imageName == job.imageName && r.imageData == data
    ensures r.operation == Domain.OperationName(job.operation)
    ensures r.encryptionMode == Domain.ModeName(job.encryptionMode)
    ensures r.processedAt == now
  {
    ResultStore.ProcessedImage(job.id.text, job.imageName, data,
      Domain.OperationName(job.operation), Domain.ModeName(job.encryptionMode), now)
  }

  /** The processor succeeded on this outcome. */
  predicate Succeeds(outcome: CryptoService.Outcome) {
    outcome.Exited? && outcome.exitCode == 0 && outcome.outputFile.Some?
  }

  /** One delivery of `job`. `timestamp` and `now` are the two clock
      readings; `outcome` is how the native processor run went. */
  function Consume(store: ResultStore.Store, job: Domain.Job, timestamp: nat, now: int,
                   outcome: CryptoService.Outcome): (after: ResultStore.Store)
    ensures !Succeeds(outcome) || job.imageName.None? ==> after == store
    ensures Succeeds(outcome) && job.imageName.Some? ==>
      && after.Keys == store.Keys + {job.id.text}
      && after[job.id.text] == RecordFor(job, outcome.outputFile.value, now)
    ensures forall k | k in store && k != job.id.text :: k in after && after[k] == store[k]
    ensures forall k | k in after && k != job.id.text :: k in store
  {
    var exec := CryptoService.Execute(job.imageData, job.symmetricKey, job.operation, job.encryptionMode,
                                      WorkFileName(job), timestamp, outcome);
    match exec.result
    case Err(_) => store
    case Ok(data) =>
      match ResultStore.Save(store, RecordFor(job, data, now))
      case Err(_) => store
      case Ok(saved) => saved
  }

  /** Consuming preserves the store's keying by id. */
  lemma ConsumeKeepsKeying(store: ResultStore.Store, job: Domain.Job, timestamp: nat, now: int,
                           outcome: CryptoService.Outcome)
    requires ResultStore.KeyedById(store)
    ensures ResultStore.KeyedById(Consume(store, job, timestamp, now, outcome))
  {
  }

  /** A redelivered job leaves one record for its id: the later successful
      run's, or the earlier one's when the later run fails. */
  lemma ConsumeTwice(store: ResultStore.Store, job: Domain.Job,
                     t1: nat, now1: int, o1: CryptoService.Outcome,
                     t2: nat, now2: int, o2: CryptoService.Outcome)
    ensures Succeeds(o2) ==>
      Consume(Consume(store, job, t1, now1, o1), job, t2, now2, o2) == Consume(store, job, t2, now2, o2)
    ensures !Succeeds(o2) ==>
      Consume(Consume(store, job, t1, now1, o1), job, t2, now2, o2) == Consume(store, job, t1, now1, o1)
  {
    if Succeeds(o2) && job.imageName.Some? {
      var first := Consume(store, job, t1, now1, o1);
      var r2 := RecordFor(job, o2.outputFile.value, now2);
      assert first[job.id.text := r2] == store[job.id.text := r2];
    }
  }
}
