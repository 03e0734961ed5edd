/** `BMPValidator.isValid` (the `@ValidBMPFile` constraint): five checks on
    an uploaded file, run in order, the first failure reported. */
module BmpValidator {
  import opened Prelude
  import opened Text

  /** A Spring `MultipartFile` as the validator sees it: its bytes, the
      client's file name (possibly null), and the message of the
      `IOException` that opening or reading its stream would raise, if any. */
  datatype Upload = Upload(content: Bytes, originalFilename: Option<string>, readError: Option<string>)

  const HeaderSize: nat := 54

  /** Why a file was rejected. */
  datatype Violation =
    | NullOrEmpty
    | TooLarge(size: nat, maxSize: int)
    | WrongExtension
    | ReadFailed(reason: string)
    | TooShort
    | BadSignature(first: Byte, second: Byte)

  predicate Present(file: Option<Upload>) {
    file.Some? && |file.value.content| > 0
  }

  /** The name ends in ".bmp" in any letter case. */
  predicate HasBmpName(u: Upload) {
    u.originalFilename.Some? && EndsWith(ToLower(u.originalFilename.value), ".bmp")
  }

  predicate HasBmpSignature(content: Bytes) {
    |content| >= 2 && content[0] == 0x42 && content[1] == 0x4D
  }

  /** A valid upload, independent of the order the checks run in: present,
      within the size limit, named *.bmp, readable, at least a header long,
      and starting with "BM". */
  predicate IsValidBmp(file: Option<Upload>, maxSize: int) {
    && Present(file)
    && |file.value.content| <= maxSize
    && HasBmpName(file.value)
    && file.value.readError.None?
    && |file.value.content| >= HeaderSize
    && HasBmpSignature(file.value.content)
  }

  /** The checks in source order; `None` when all pass. The stream read
      fills at most 54 bytes, so a short read is a file under 54 bytes. */
  function FirstViolation(file: Option<Upload>, maxSize: int): (v: Option<Violation>)
    ensures v.None? <==> IsValidBmp(file, maxSize)
    ensures v == Some(NullOrEmpty) <==> !Present(file)
    ensures v.Some? && v.value.TooLarge? <==> Present(file) && |file.value.content| > maxSize
    ensures v.Some? && v.value.TooLarge? ==> v.value == TooLarge(|file.value.content|, maxSize)
    ensures v == Some(WrongExtension) <==>
      Present(file) && |file.value.content| <= maxSize && !HasBmpName(file.value)
    ensures v.Some? && v.value.ReadFailed? <==>
      Present(file) && |file.value.content| <= maxSize && HasBmpName(file.value) && file.value.readError.Some?
    ensures v.Some? && v.value.ReadFailed? ==> v.value.reason == file.value.readError.value
    ensures v == Some(TooShort) <==>
      && Present(file) && |file.value.content| <= maxSize && HasBmpName(file.value) && file.value.readError.None?
      && |file.value.content| < HeaderSize
    ensures v.Some? && v.value.BadSignature? <==>
      && Present(file) && |file.value.content| <= maxSize && HasBmpName(file.value) && file.value.readError.None?
      && |file.value.content| >= HeaderSize && !HasBmpSignature(file.value.content)
    ensures v.Some? && v.value.BadSignature? ==>
      v.value == BadSignature(file.value.content[0], file.value.content[1])
  {
    if file.None? || |file.value.content| == 0 then Some(NullOrEmpty)
    else
      var u := file.value;
      if |u.content| > maxSize then Some(TooLarge(|u.content|, maxSize))
      else if u.originalFilename.None? || !EndsWith(ToLower(u.originalFilename.value), ".bmp") then Some(WrongExtension)
      else if u.readError.Some? then Some(ReadFailed(u.readError.value))
      else if |u.content| < HeaderSize then Some(TooShort)
      else if u.content[0] != 0x42 || u.content[1] != 0x4D then Some(BadSignature(u.content[0], u.content[1]))
      else None
  }

  /** `(char) b` for a Java `byte` holding `b`: the byte is sign-extended,
      so values from 0x80 up land at U+FF80 .. U+FFFF. */
  function SignedByteChar(b: Byte): (c: char)
    ensures (c as int) % 0x100 == b
    ensures c as int < 0x80 <==> b < 0x80
  {
    if b < 0x80 then b as char else (0xFF00 + b) as char
  }

  const NullOrEmptyMessage: string := "File cannot be null or empty"
  const WrongExtensionMessage: string := "File must have .bmp extension"
  const TooShortMessage: string := "File is" + " too small to be a valid BMP (minimum 54 bytes required)"
  const ReadFailedLead: string := "Failed to read file for validation: "
  const BadSignatureLead: string := "Invalid BMP signature. Expected 'BM', got '"

  /** The `String.format` text of a too-large file: both sizes in decimal. */
  function TooLargeMessage(size: nat, maxSize: int): (m: string)
    ensures StartsWith(m, "File size (" + NatToDecimal(size) + " bytes)")
    ensures EndsWith(m, " exceeds maximum allowed size of " + IntToDecimal(maxSize) + " bytes")
  {
    var head := "File size (" + NatToDecimal(size) + " bytes)";
    var tail := " exceeds maximum allowed size of " + IntToDecimal(maxSize) + " bytes";
    ConcatAffixes(head, tail);
    head + tail
  }

  /** The constraint violation message the validator adds: the fixed text of
      its kind, with the size, the exception's message or the two bytes read
      where the source formats them in. */
  function Message(v: Violation): (m: string)
    ensures v.NullOrEmpty? ==> m == NullOrEmptyMessage
    ensures v.WrongExtension? ==> m == WrongExtensionMessage
    ensures v.TooShort? ==> m == TooShortMessage
    ensures v.TooLarge? ==> m == TooLargeMessage(v.size, v.maxSize)
    ensures v.ReadFailed? ==> m == ReadFailedLead + v.reason
    ensures v.BadSignature? ==> m == BadSignatureLead + [SignedByteChar(v.first), SignedByteChar(v.second), '\'']
  {
    match v
    case NullOrEmpty => NullOrEmptyMessage
    case TooLarge(size, maxSize) => TooLargeMessage(size, maxSize)
    case WrongExtension => WrongExtensionMessage
    case ReadFailed(reason) => ReadFailedLead + reason
    case TooShort => TooShortMessage
    case BadSignature(first, second) => BadSignatureLead + [SignedByteChar(first), SignedByteChar(second), '\'']
  }

  /** Two violations with the same message are of the same kind: the
      messages differ in their first, second or sixth character. */
  lemma MessageDeterminesKind(v: Violation, w: Violation)
    requires Message(v) == Message(w)
    ensures v.NullOrEmpty? == w.NullOrEmpty? && v.TooLarge? == w.TooLarge?
    ensures v.WrongExtension? == w.WrongExtension? && v.ReadFailed? == w.ReadFailed?
    ensures v.TooShort? == w.TooShort? && v.BadSignature? == w.BadSignature?
  {
    MessageOpening(v);
    MessageOpening(w);
  }

  /** The characters at positions 0, 1 and 5 of each kind's message. */
  lemma MessageOpening(v: Violation)
    ensures |Message(v)| > 5
    ensures Message(v)[0] == 'I' <==> v.BadSignature?
    ensures Message(v)[1] == 'a' <==> v.ReadFailed?
    ensures v.NullOrEmpty? ==> Message(v)[1] == 'i' && Message(v)[5] == 'c'
    ensures v.TooLarge? ==> Message(v)[1] == 'i' && Message(v)[5] == 's'
    ensures v.WrongExtension? ==> Message(v)[1] == 'i' && Message(v)[5] == 'm'
    ensures v.TooShort? ==> Message(v)[1] == 'i' && Message(v)[5] == 'i'
  {
    match v
    case TooLarge(size, maxSize) => TooLargeOpening(size, maxSize);
    case ReadFailed(reason) => LeadOpening(ReadFailedLead, reason);
    case BadSignature(first, second) =>
      LeadOpening(BadSignatureLead, [SignedByteChar(first), SignedByteChar(second), '\'']);
    case NullOrEmpty =>
      assert NullOrEmptyMessage[0] == 'F' && NullOrEmptyMessage[1] == 'i' && NullOrEmptyMessage[5] == 'c';
    case WrongExtension =>
      assert WrongExtensionMessage[0] == 'F' && WrongExtensionMessage[1] == 'i' && WrongExtensionMessage[5] == 'm';
    case TooShort =>
      assert TooShortMessage[0] == 'F' && TooShortMessage[1] == 'i' && TooShortMessage[5] == 'i';
  }

  lemma TooLargeOpening(size: nat, maxSize: int)
    ensures var m := TooLargeMessage(size, maxSize); |m| > 5 && m[0] == 'F' && m[1] == 'i' && m[5] == 's'
  {
    var head := "File size (";
    assert TooLargeMessage(size, maxSize)[..|head|] == head;
  }

  /** A message made of a fixed lead of more than five characters and a
      tail opens with the lead's characters. */
  lemma LeadOpening(lead: string, tail: string)
    requires lead == ReadFailedLead || lead == BadSignatureLead
    ensures |lead + tail| > 5
    ensures (lead + tail)[0] == 'I' <==> lead == BadSignatureLead
    ensures (lead + tail)[1] == 'a' <==> lead == ReadFailedLead
  {
    assert ReadFailedLead[0] == 'F' && ReadFailedLead[1] == 'a';
    assert BadSignatureLead[0] == 'I' && BadSignatureLead[1] == 'n';
  }

  /** A file exactly at the size limit passes the size check; one byte more
      fails it. */
  lemma SizeLimitInclusive(u: Upload, maxSize: int)
    requires |u.content| > 0
    ensures |u.content| == maxSize ==> !(FirstViolation(Some(u), maxSize).Some? && FirstViolation(Some(u), maxSize).value.TooLarge?)
    ensures |u.content| == maxSize + 1 ==> FirstViolation(Some(u), maxSize) == Some(TooLarge(maxSize + 1, maxSize))
  {
  }

  /** The extension check ignores letter case: renaming a file between
      "x.BMP" and "x.bmp" cannot change the verdict. */
  lemma ExtensionCaseInsensitive(u: Upload, name: string, maxSize: int)
    requires u.originalFilename.Some?
    requires ToLower(name) == ToLower(u.originalFilename.value)
    ensures FirstViolation(Some(u), maxSize) == FirstViolation(Some(u.(originalFilename := Some(name))), maxSize)
  {
  }
}
