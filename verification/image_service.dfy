/** `ImageService`: turns an accepted upload into a job on the queue and
    lists the processed images. The queue is the sequence of jobs published
    so far; `UUID.randomUUID` is the parameter `freshId`. */
module ImageService {
  import opened Prelude
  import Domain
  import BmpValidator
  import ResultStore

  /** Whether reading the upload's bytes and publishing the job went
      through, or one of them threw. */
  datatype Delivery = Published | Failed

  /** The id handed back, or the message of the exception raised. */
  datatype Submission = Submission(id: Result<Domain.Uuid, string>, queue: seq<Domain.Job>)

  const SubmitFailure: string := "Failed to process image"

  /** The job `processImage` publishes: the upload's bytes and original
      name, the key, operation and mode, under the fresh id. */
  function JobFor(file: BmpValidator.Upload, key: string, op: Domain.Operation,
                  mode: Domain.EncryptionMode, freshId: Domain.Uuid): (job: Domain.Job)
    ensures job.id == freshId && job.imageData == file.content && job.imageName == file.originalFilename
    ensures job.symmetricKey == key && job.operation == op && job.encryptionMode == mode
  {
    Domain.Job(freshId, file.content, key, op, mode, file.originalFilename)
  }

  /** `processImage`: on success exactly one job is appended and its id is
      returned; on failure nothing is published and the call throws. */
  function Submit(file: BmpValidator.Upload, key: string, op: Domain.Operation, mode: Domain.EncryptionMode,
                  freshId: Domain.Uuid, delivery: Delivery, queue: seq<Domain.Job>): (s: Submission)
    ensures s.id.Ok? <==> delivery == Published
    ensures s.id.Ok? ==>
      && s.id.value == freshId
      && |s.queue| == |queue| + 1 && s.queue[..|queue|] == queue
      && s.queue[|queue|] == JobFor(file, key, op, mode, freshId)
      && s.queue[|queue|].id == s.id.value
    ensures s.id.Err? ==> s.id.error == SubmitFailure && s.queue == queue
  {
    match delivery
    case Published => Submission(Ok(freshId), queue + [JobFor(file, key, op, mode, freshId)])
    case Failed => Submission(Err(SubmitFailure), queue)
  }

  /** `getProcessedImages`: the repository's `findAll`, unordered. */
  method GetProcessedImages(store: ResultStore.Store) returns (images: seq<ResultStore.ProcessedImage>)
    ensures |images| == |store|
    ensures forall k | k in store :: store[k] in images
    ensures forall i | 0 <= i < |images| :: images[i] in store.Values
  {
    images := ResultStore.FindAll(store);
  }
}
