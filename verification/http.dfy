/** The HTTP surface: `ImageController`'s three endpoints and
    `GlobalExceptionHandler`'s mapping of exceptions to error bodies. */
module Http {
  import opened Prelude
  import opened Text
  import Domain
  import ImageRequest
  import ImageService
  import ResultStore

  datatype Endpoint = EncryptEndpoint | DecryptEndpoint

  /** The body of a response: a job id, an `ErrorResponse`, or the list of
      processed images. */
  datatype Body =
    | IdBody(id: Domain.Uuid)
    | ErrorBody(code: string, message: string)
    | ImagesBody(images: seq<ResultStore.ProcessedImage>)

  datatype Response = Response(status: int, body: Body)

  /** POST /images/encrypt dispatches ENCRYPT, /images/decrypt DECRYPT. */
  function EndpointOperation(e: Endpoint): (op: Domain.Operation)
    ensures op == Domain.Encrypt <==> e == EncryptEndpoint
  {
    match e
    case EncryptEndpoint => Domain.Encrypt
    case DecryptEndpoint => Domain.Decrypt
  }

  function RenderFieldError(e: ImageRequest.FieldError): string {
    e.field + ": " + e.message
  }

  /** `handleValidationErrors`' message: every field error as
      "field: message", joined with ", ". */
  function RenderFieldErrors(errors: seq<ImageRequest.FieldError>): string {
    Join(seq(|errors|, i requires 0 <= i < |errors| => RenderFieldError(errors[i])), ", ")
  }

  /** `Join` read from the front: the first part, then the separator and
      the rest. Together with its definition from the back this fixes the
      order of the parts. */
  lemma {:induction false} JoinFront(parts: seq<string>, sep: string)
    requires |parts| >= 2
    ensures Join(parts, sep) == parts[0] + sep + Join(parts[1..], sep)
    decreases |parts|
  {
    if |parts| > 2 {
      JoinFront(parts[..|parts| - 1], sep);
      assert parts[..|parts| - 1][1..] == parts[1..][..|parts| - 2];
    } else {
      assert parts[1..] == [parts[1]];
    }
  }

  /** The message lists the field errors in order, each as "field: message",
      separated by ", ": nothing for no errors, the one error alone, or the
      first error, the separator and the rendering of the rest. */
  lemma RenderFieldErrorsOrder(errors: seq<ImageRequest.FieldError>)
    ensures errors == [] ==> RenderFieldErrors(errors) == ""
    ensures |errors| == 1 ==> RenderFieldErrors(errors) == errors[0].field + ": " + errors[0].message
    ensures |errors| >= 2 ==>
      RenderFieldErrors(errors) == errors[0].field + ": " + errors[0].message + ", " + RenderFieldErrors(errors[1..])
  {
    var parts := seq(|errors|, i requires 0 <= i < |errors| => RenderFieldError(errors[i]));
    if |errors| >= 2 {
      JoinFront(parts, ", ");
      assert parts[1..] == seq(|errors[1..]|, i requires 0 <= i < |errors[1..]| => RenderFieldError(errors[1..][i]));
    }
  }

  /** A validation failure: 400, VALIDATION_ERROR, with every field error
      in order. */
  function ValidationError(errors: seq<ImageRequest.FieldError>): (r: Response)
    ensures r.status == 400 && r.body.ErrorBody? && r.body.code == "VALIDATION_ERROR"
    ensures |errors| == 1 ==> r.body.message == errors[0].field + ": " + errors[0].message
    ensures |errors| >= 2 ==>
      r.body.message == errors[0].field + ": " + errors[0].message + ", " + RenderFieldErrors(errors[1..])
  {
    RenderFieldErrorsOrder(errors);
    Response(400, ErrorBody("VALIDATION_ERROR", RenderFieldErrors(errors)))
  }

  /** Any other exception: 500, INTERNAL_SERVER_ERROR, with its message. */
  function GeneralError(message: string): (r: Response)
    ensures r.status == 500 && r.body == ErrorBody("INTERNAL_SERVER_ERROR", message)
  {
    Response(500, ErrorBody("INTERNAL_SERVER_ERROR", message))
  }

  /** The outcome of a POST: the response and the queue afterwards. */
  datatype Posted = Posted(response: Response, queue: seq<Domain.Job>)

  /** POST /images/encrypt or /images/decrypt: validation, then
      `ImageService.processImage` with the endpoint's operation and the
      request's mode. */
  function Post(endpoint: Endpoint, req: ImageRequest.Request, freshId: Domain.Uuid,
                delivery: ImageService.Delivery, queue: seq<Domain.Job>): (p: Posted)
    ensures p.response.status == 200 || p.response.status == 400 || p.response.status == 500
    ensures p.response.status == 400 <==> !ImageRequest.IsValid(req)
    ensures p.response.status == 400 ==> p.response == ValidationError(ImageRequest.Validate(req))
    ensures p.response.status == 200 <==> ImageRequest.IsValid(req) && delivery == ImageService.Published
    ensures p.response.status == 200 ==>
      && p.response.body == IdBody(freshId)
      && |p.queue| == |queue| + 1 && p.queue[..|queue|] == queue
      && var job := p.queue[|queue|];
         && job.id == freshId
         && job.operation == EndpointOperation(endpoint)
         && Some(job.encryptionMode) == ImageRequest.GetEncryptionMode(req.mode.value)
         && job.symmetricKey == req.key.value
         && job.imageData == req.file.value.content
         && job.imageName == req.file.value.originalFilename
    ensures p.response.status == 500 ==> p.response == GeneralError(ImageService.SubmitFailure)
    ensures p.response.status != 200 ==> p.queue == queue
  {
    var errors := ImageRequest.Validate(req);
    if errors != [] then Posted(ValidationError(errors), queue)
    else
      ImageRequest.ValidModeMaps(req);
      var mode := ImageRequest.GetEncryptionMode(req.mode.value).value;
      var s := ImageService.Submit(req.file.value, req.key.value, EndpointOperation(endpoint), mode,
                                   freshId, delivery, queue);
      match s.id
      case Ok(id) => Posted(Response(200, IdBody(id)), s.queue)
      case Err(message) => Posted(GeneralError(message), queue)
  }

  /** GET /images/processed: 200 with the service's list as it is. */
  method GetProcessed(store: ResultStore.Store) returns (r: Response)
    ensures r.status == 200 && r.body.ImagesBody?
    ensures |r.body.images| == |store|
    ensures forall k | k in store :: store[k] in r.body.images
    ensures forall i | 0 <= i < |r.body.images| :: r.body.images[i] in store.Values
  {
    var images := ImageService.GetProcessedImages(store);
    r := Response(200, ImagesBody(images));
  }
}
