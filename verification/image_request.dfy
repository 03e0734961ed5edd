/** `ImageProcessingRequest`: the upload form's Bean Validation constraints
    and `getEncryptionMode`. Bean Validation does not fix the order of field
    errors; the model reports them in declaration order (file, key, mode). */
module ImageRequest {
  import opened Prelude
  import opened Text
  import Domain
  import BmpValidator

  /** The bound form fields; each may be missing (null). */
  datatype Request = Request(file: Option<BmpValidator.Upload>, key: Option<string>, mode: Option<string>)

  /** One Spring `FieldError`: the field's name and the constraint's message. */
  datatype FieldError = FieldError(field: string, message: string)

  /** `@ValidBMPFile(maxSize = 100 * 1024 * 1024)`. */
  const MaxFileSize: int := 100 * 1024 * 1024

  const MinKeyLength: nat := 16
  const MaxKeyLength: nat := 32

  predicate KeyOk(key: Option<string>) {
    key.Some? && !IsBlank(key.value) && MinKeyLength <= Utf16Length(key.value) <= MaxKeyLength
  }

  /** `^(ECB|CBC)$`, case-sensitive. */
  predicate ModeOk(mode: Option<string>) {
    mode.Some? && (mode.value == "ECB" || mode.value == "CBC")
  }

  /** A request every constraint accepts. */
  predicate IsValid(req: Request) {
    && req.file.Some?
    && BmpValidator.IsValidBmp(req.file, MaxFileSize)
    && KeyOk(req.key)
    && ModeOk(req.mode)
  }

  /** `@NotNull` then `@ValidBMPFile` on `file`. A missing file fails both. */
  function FileErrors(file: Option<BmpValidator.Upload>): (errors: seq<FieldError>)
    ensures errors == [] <==> file.Some? && BmpValidator.IsValidBmp(file, MaxFileSize)
    ensures forall i | 0 <= i < |errors| :: errors[i].field == "file"
    ensures file.None? ==> errors == [FieldError("file", "File is required"), FieldError("file", BmpValidator.NullOrEmptyMessage)]
  {
    (if file.None? then [FieldError("file", "File is required")] else [])
    + match BmpValidator.FirstViolation(file, MaxFileSize)
      case None => []
      case Some(v) => [FieldError("file", BmpValidator.Message(v))]
  }

  /** `@NotBlank` then `@Size(min = 16, max = 32)` on `key`. A null key
      passes `@Size`; a blank key of acceptable length fails only `@NotBlank`. */
  function KeyErrors(key: Option<string>): (errors: seq<FieldError>)
    ensures errors == [] <==> KeyOk(key)
    ensures forall i | 0 <= i < |errors| :: errors[i].field == "key"
    ensures key.Some? && IsBlank(key.value) ==> |errors| >= 1 && errors[0].message == "Encryption key is required"
  {
    (if key.None? || IsBlank(key.value) then [FieldError("key", "Encryption key is required")] else [])
    + (if key.Some? && !(MinKeyLength <= Utf16Length(key.value) <= MaxKeyLength)
       then [FieldError("key", "Encryption key must be between 16 and 32 characters")]
       else [])
  }

  /** `@NotBlank` then `@Pattern(regexp = "^(ECB|CBC)$")` on `mode`. */
  function ModeErrors(mode: Option<string>): (errors: seq<FieldError>)
    ensures errors == [] <==> ModeOk(mode)
    ensures forall i | 0 <= i < |errors| :: errors[i].field == "mode"
  {
    assert ModeOk(mode) ==> !IsBlank(mode.value) by {
      if ModeOk(mode) { assert mode.value[0] > ' '; }
    }
    (if mode.None? || IsBlank(mode.value) then [FieldError("mode", "Mode is required")] else [])
    + (if mode.Some? && mode.value != "ECB" && mode.value != "CBC"
       then [FieldError("mode", "Mode must be either ECB or CBC")]
       else [])
  }

  /** Every constraint violation of the request. */
  function Validate(req: Request): (errors: seq<FieldError>)
    ensures errors == [] <==> IsValid(req)
    ensures forall i | 0 <= i < |errors| :: errors[i].field in {"file", "key", "mode"}
    ensures (exists i | 0 <= i < |errors| :: errors[i].field == "key") <==> !KeyOk(req.key)
    ensures (exists i | 0 <= i < |errors| :: errors[i].field == "mode") <==> !ModeOk(req.mode)
  {
    var f := FileErrors(req.file);
    var k := KeyErrors(req.key);
    var m := ModeErrors(req.mode);
    FieldsOfConcat(f, k, m);
    f + k + m
  }

  lemma FieldsOfConcat(f: seq<FieldError>, k: seq<FieldError>, m: seq<FieldError>)
    requires forall i | 0 <= i < |f| :: f[i].field == "file"
    requires forall i | 0 <= i < |k| :: k[i].field == "key"
    requires forall i | 0 <= i < |m| :: m[i].field == "mode"
    ensures forall i | 0 <= i < |f + k + m| :: (f + k + m)[i].field in {"file", "key", "mode"}
    ensures (exists i | 0 <= i < |f + k + m| :: (f + k + m)[i].field == "key") <==> |k| > 0
    ensures (exists i | 0 <= i < |f + k + m| :: (f + k + m)[i].field == "mode") <==> |m| > 0
  {
    var all := f + k + m;
    assert forall i | 0 <= i < |all| :: all[i] == if i < |f| then f[i] else if i < |f| + |k| then k[i - |f|] else m[i - |f| - |k|];
    if |k| > 0 {
      assert all[|f|].field == "key";
    }
    if |m| > 0 {
      assert all[|f| + |k|].field == "mode";
    }
  }

  /** `getEncryptionMode`: `EncryptionMode.valueOf("AES_" + mode.toUpperCase())`;
      `None` where `valueOf` throws. */
  function GetEncryptionMode(mode: string): (r: Option<Domain.EncryptionMode>)
    ensures r.Some? <==> ToUpper(mode) == "ECB" || ToUpper(mode) == "CBC"
    ensures r == Some(Domain.AesEcb) <==> ToUpper(mode) == "ECB"
    ensures r == Some(Domain.AesCbc) <==> ToUpper(mode) == "CBC"
  {
    var name := "AES_" + ToUpper(mode);
    assert name == "AES_ECB" <==> ToUpper(mode) == "ECB" by {
      if name == "AES_ECB" { assert name[4..] == ToUpper(mode); }
    }
    assert name == "AES_CBC" <==> ToUpper(mode) == "CBC" by {
      if name == "AES_CBC" { assert name[4..] == ToUpper(mode); }
    }
    Domain.ModeNamed(name)
  }

  /** Every mode that passes validation maps to its constant: ECB to
      AES_ECB and CBC to AES_CBC. */
  lemma ValidModeMaps(req: Request)
    requires IsValid(req)
    ensures req.mode.value == "ECB" ==> GetEncryptionMode(req.mode.value) == Some(Domain.AesEcb)
    ensures req.mode.value == "CBC" ==> GetEncryptionMode(req.mode.value) == Some(Domain.AesCbc)
    ensures GetEncryptionMode(req.mode.value).Some?
  {
    if req.mode.value == "ECB" {
      assert ToUpper("ECB") == "ECB";
    } else {
      assert ToUpper("CBC") == "CBC";
    }
  }

  /** A key of only spaces is refused whatever its length. */
  lemma BlankKeyRejected(req: Request)
    requires req.key.Some? && forall i | 0 <= i < |req.key.value| :: req.key.value[i] == ' '
    ensures !IsValid(req)
    ensures FieldError("key", "Encryption key is required") in Validate(req)
  {
    var f := FileErrors(req.file);
    var k := KeyErrors(req.key);
    assert Validate(req)[|f|] == k[0];
  }
}
