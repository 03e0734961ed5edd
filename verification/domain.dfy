/** The backend's shared types: the `Operation` and `EncryptionMode` enums
    and the job message the API publishes for the worker
    (`ImageProcessingMessage`). The two enum sources are not part of this
    model; their constants are the ones the backend names in its code. */
module Domain {
  import opened Prelude
  import opened Text

  datatype Operation = Encrypt | Decrypt

  datatype EncryptionMode = AesEcb | AesCbc

  /** `Operation.name()`. */
  function OperationName(op: Operation): string {
    match op
    case Encrypt => "ENCRYPT"
    case Decrypt => "DECRYPT"
  }

  /** `EncryptionMode.name()`. */
  function ModeName(mode: EncryptionMode): string {
    match mode
    case AesEcb => "AES_ECB"
    case AesCbc => "AES_CBC"
  }

  /** `EncryptionMode.valueOf`: the constant with exactly this name. */
  function ModeNamed(name: string): (r: Option<EncryptionMode>)
    ensures r.Some? ==> ModeName(r.value) == name
    ensures (exists m :: ModeName(m) == name) ==> r.Some?
  {
    if name == "AES_ECB" then Some(AesEcb)
    else if name == "AES_CBC" then Some(AesCbc)
    else None
  }

  /** A `java.util.UUID` by its canonical text, `UUID.toString()`. */
  datatype Uuid = Uuid(text: string)

  /** `ImageProcessingMessage`: one job on the queue. `imageName` is the
      upload's original file name, which may be null. */
  datatype Job = Job(
    id: Uuid,
    imageData: Bytes,
    symmetricKey: string,
    operation: Operation,
    encryptionMode: EncryptionMode,
    imageName: Option<string>)
}
