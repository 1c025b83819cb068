/** Error texts in the fixed message buffer of HardwareModuleState. */
module ErrorText {
  import opened Messages

  const MESSAGE_SIZE := 256

  /** Length of the C string that starts at the beginning of `bytes`. */
  function CLength(bytes: seq<Byte>): (n: nat)
    ensures n <= |bytes| && (n < |bytes| ==> bytes[n] == 0)
    ensures forall i :: 0 <= i < n ==> bytes[i] != 0
  {
    if bytes == [] || bytes[0] == 0 then 0 else 1 + CLength(bytes[1..])
  }

  lemma {:induction false} CLengthIs(bytes: seq<Byte>, n: nat)
    requires n <= |bytes| && (n < |bytes| ==> bytes[n] == 0)
    requires forall i :: 0 <= i < n ==> bytes[i] != 0
    ensures CLength(bytes) == n
  {
    var c := CLength(bytes);
    assert c < |bytes| ==> bytes[c] == 0;
  }

  /** The part of a text that a reader of the buffer sees. */
  function Visible(text: seq<Byte>): seq<Byte> {
    text[..if CLength(text) < MESSAGE_SIZE then CLength(text) else MESSAGE_SIZE - 1]
  }

  /** `std::strncpy` of a zero-terminated text: copies up to the terminator, then pads. */
  method Strncpy(dst: array<Byte>, src: seq<Byte>)
    modifies dst
    ensures forall k :: 0 <= k < dst.Length ==> dst[k] == if k < CLength(src) then src[k] else 0
  {
    var i := 0;
    while i < dst.Length && i < |src| && src[i] != 0
      invariant 0 <= i <= dst.Length && i <= CLength(src)
      invariant forall k :: 0 <= k < i ==> dst[k] == src[k]
    {
      dst[i] := src[i];
      i := i + 1;
    }
    while i < dst.Length
      invariant 0 <= i <= dst.Length
      invariant forall k :: 0 <= k < i ==> dst[k] == if k < CLength(src) then src[k] else 0
      invariant i < dst.Length ==> CLength(src) <= i
    {
      dst[i] := 0;
      i := i + 1;
    }
  }

  /** The message bytes recorded for an error: the visible part, then zeros to the end. */
  method Record(text: seq<Byte>) returns (message: seq<Byte>)
    ensures message == Recorded(text)
  {
    var buffer := new Byte[MESSAGE_SIZE];
    Strncpy(buffer, text);
    buffer[buffer.Length - 1] := 0;
    message := buffer[..];
  }

  function Recorded(text: seq<Byte>): seq<Byte> {
    Visible(text) + seq(MESSAGE_SIZE - |Visible(text)|, _ => 0)
  }

  /** Read back as a C string, the recorded message is the text cut at its first zero and at
      255 bytes; it is zero-terminated and zero from there on. */
  lemma {:induction false} RecordedReadsBack(text: seq<Byte>)
    ensures var m := Recorded(text);
            && |m| == MESSAGE_SIZE && m[MESSAGE_SIZE - 1] == 0
            && m[..CLength(m)] == Visible(text)
            && m[..CLength(m)] == text[..if CLength(text) < 255 then CLength(text) else 255]
            && (forall k :: CLength(m) <= k < MESSAGE_SIZE ==> m[k] == 0)
            && (CLength(text) == |text| < MESSAGE_SIZE ==> m[..CLength(m)] == text)
  {
    CLengthIs(Recorded(text), |Visible(text)|);
  }

  // ---- The text that a running module reports ----

  /** `std::memcpy` of as many bytes as fit, into a message that is all zeros. */
  method CopyBounded(src: seq<Byte>) returns (message: seq<Byte>)
    ensures message == Copied(src)
    ensures |message| == 256 && forall k :: 0 <= k < 256 ==> message[k] == if k < |src| then src[k] else 0
  {
    var buffer := new Byte[MESSAGE_SIZE](_ => 0);
    var i := 0;
    while i < buffer.Length && i < |src|
      invariant 0 <= i <= buffer.Length && i <= |src|
      invariant forall k :: 0 <= k < i ==> buffer[k] == src[k]
      invariant forall k :: i <= k < buffer.Length ==> buffer[k] == 0
    {
      buffer[i] := src[i];
      i := i + 1;
    }
    message := buffer[..];
  }

  function Copied(src: seq<Byte>): seq<Byte> {
    if |src| >= MESSAGE_SIZE then src[..MESSAGE_SIZE] else src + seq(MESSAGE_SIZE - |src|, _ => 0)
  }

  /** Unlike a recorded error, a copied text need not be terminated: it is exactly when the text
      ends or has a zero within the buffer, and only then is the whole C string read back. */
  lemma {:induction false} CopiedReadsBackExactly(src: seq<Byte>)
    ensures var m := Copied(src);
            && |m| == MESSAGE_SIZE
            && (forall k :: 0 <= k < MESSAGE_SIZE ==> m[k] == if k < |src| then src[k] else 0)
            && (CLength(m) < MESSAGE_SIZE <==> CLength(src) < MESSAGE_SIZE)
            && m[..CLength(m)] == src[..if CLength(src) < MESSAGE_SIZE then CLength(src) else MESSAGE_SIZE]
  {
    var n := CLength(src);
    CLengthIs(Copied(src), if n < MESSAGE_SIZE then n else MESSAGE_SIZE);
  }
}
