/**
  The fixed layout of a QL Quill document, shared by the Qt decoders.

  Offset 0 holds a 16-bit header-block length, offsets 2..9 the magic
  "vrm1qdf0", offset 10 a big-endian 32-bit pointer to the end of the body
  text, offsets 14..19 three table lengths the decoders skip. From offset 20
  come the page header and the page footer, each ended by a zero byte, and
  then the body up to the text-end pointer.
 */
module QuillFormat {
  import opened Results

  /** One byte of a Quill file. */
  type byte = x: int | 0 <= x < 256

  /** The magic "vrm1qdf0" stored at offsets 2..9. */
  const Magic: seq<byte> := [118, 114, 109, 49, 113, 100, 102, 48]

  /** Size of the fixed header block: the page header text starts here. */
  const HeaderBlockSize: nat := 20

  /** Offset of the big-endian text-end pointer. */
  const TextEndOffset: nat := 10

  /** Bytes 2..9 hold the magic. */
  predicate HasMagic(file: seq<byte>)
  {
    10 <= |file| && file[2..10] == Magic
  }

  /** The byte QDataStream hands back at offset `i`: past the end of the file it reads 0. */
  function StreamByte(file: seq<byte>, i: nat): byte
  {
    if i < |file| then file[i] else 0
  }

  /** The first `n` bytes as QDataStream reads them, zero past the end of the file. */
  function StreamPrefix(file: seq<byte>, n: nat): (r: seq<byte>)
    ensures |r| == n
    ensures forall i :: 0 <= i < n ==> r[i] == StreamByte(file, i)
    ensures n <= |file| ==> r == file[..n]
  {
    if n == 0 then [] else StreamPrefix(file, n - 1) + [StreamByte(file, n - 1)]
  }

  /** The eight bytes the Qt decoders compare with the magic: each one-byte read past the end of the file gives 0. */
  function StreamMagic(file: seq<byte>): (m: seq<byte>)
    ensures |m| == |Magic|
  {
    StreamPrefix(file, 10)[2..10]
  }

  /**
    Zero padding never forges the magic: its last byte is not 0, so a file
    too short to hold it fails the comparison.
   */
  lemma StreamMagicIffHasMagic(file: seq<byte>)
    ensures StreamMagic(file) == Magic <==> HasMagic(file)
  {
    if |file| < 10 {
      assert StreamMagic(file)[7] == StreamByte(file, 9) == 0;
    }
  }

  /** Bytes appended one at a time to a QString become 8-bit (Latin-1) characters. */
  function Latin1(bs: seq<byte>): (s: string)
    ensures |s| == |bs|
    ensures forall i :: 0 <= i < |bs| ==> s[i] as int == bs[i]
  {
    seq(|bs|, i requires 0 <= i < |bs| => bs[i] as char)
  }

  /** The unsigned 16-bit big-endian value at `at`, as QDataStream reads it. */
  function BigEndian16(file: seq<byte>, at: nat): (v: nat)
    requires at + 2 <= |file|
    ensures v < 0x1_0000
    ensures v / 0x100 == file[at] && v % 0x100 == file[at + 1]
  {
    (file[at] as int) * 0x100 + file[at + 1] as int
  }

  /** The unsigned 32-bit big-endian value at `at`. */
  function BigEndian32(file: seq<byte>, at: nat): (v: nat)
    requires at + 4 <= |file|
    ensures v < 0x1_0000_0000
    ensures v / 0x1_0000 == BigEndian16(file, at) && v % 0x1_0000 == BigEndian16(file, at + 2)
  {
    BigEndian16(file, at) * 0x1_0000 + BigEndian16(file, at + 2)
  }

  /** Reinterprets a 32-bit pattern as a two's-complement signed value. */
  function Signed32(v: nat): (s: int)
    requires v < 0x1_0000_0000
    ensures -0x8000_0000 <= s < 0x8000_0000
    ensures (s - v) % 0x1_0000_0000 == 0
  {
    if v < 0x8000_0000 then v else v - 0x1_0000_0000
  }

  /** The offset of the first zero byte at or after `from`, or None when the file ends first. */
  function FindZero(file: seq<byte>, from: nat): (r: Option<nat>)
    decreases |file| - from
    ensures r.Some? ==> from <= r.value < |file| && file[r.value] == 0
    ensures r.Some? ==> forall j :: from <= j < r.value ==> file[j] != 0
    ensures r.None? ==> forall j :: from <= j < |file| ==> file[j] != 0
  {
    if from >= |file| then None
    else if file[from] == 0 then Some(from)
    else FindZero(file, from + 1)
  }

  /** How many times `x` occurs in `bs`. */
  function Occurrences(bs: seq<byte>, x: byte): nat
  {
    if bs == [] then 0
    else Occurrences(bs[..|bs| - 1], x) + (if bs[|bs| - 1] == x then 1 else 0)
  }

  /** Why a decoder had to read past the end of the file. */
  datatype Truncation =
    | ShortHeaderBlock    // the file ends inside the 20-byte header block
    | UnterminatedHeader  // no zero byte ends the page header
    | UnterminatedFooter  // no zero byte ends the page footer
    | ShortBody           // the text-end pointer lies beyond the end of the file

  /** `text` is stored at `at`, holds no zero byte and is followed by one. */
  ghost predicate ZeroTerminatedAt(file: seq<byte>, at: nat, text: seq<byte>)
  {
    && at + |text| < |file|
    && file[at..at + |text|] == text
    && file[at + |text|] == 0
    && (forall i :: 0 <= i < |text| ==> text[i] != 0)
  }

  /** What the decoders extract from the fixed part of a document. */
  datatype Layout = Layout(textEnd: nat, header: seq<byte>, footer: seq<byte>)
  {
    /** Offset of the first body byte: the byte after the footer's terminator. */
    function BodyStart(): nat
    {
      HeaderBlockSize + |header| + 1 + |footer| + 1
    }
  }

  /**
    Reads the text-end pointer, skips the three table lengths and extracts the
    zero-terminated page header and footer (quill.cpp and mdichild.cpp share
    this layout). A read past the end is a failure.
   */
  function ParseLayout(file: seq<byte>): (r: Result<Layout, Truncation>)
    ensures |file| < TextEndOffset + 4 ==> r == Failure(ShortHeaderBlock)
    ensures r.Success? ==>
      && TextEndOffset + 4 <= |file|
      && r.value.textEnd == BigEndian32(file, TextEndOffset)
      && ZeroTerminatedAt(file, HeaderBlockSize, r.value.header)
      && ZeroTerminatedAt(file, HeaderBlockSize + |r.value.header| + 1, r.value.footer)
      && r.value.BodyStart() <= |file|
    ensures r == Failure(UnterminatedHeader) ==>
      forall j :: HeaderBlockSize <= j < |file| ==> file[j] != 0
  {
    if |file| < TextEndOffset + 4 then Failure(ShortHeaderBlock)
    else
      match FindZero(file, HeaderBlockSize)
      case None => Failure(UnterminatedHeader)
      case Some(h) =>
        match FindZero(file, h + 1)
        case None =>
          Failure(UnterminatedFooter)
        case Some(f) =>
          var l := Layout(BigEndian32(file, TextEndOffset), file[HeaderBlockSize..h], file[h + 1..f]);
          assert file[h] == 0 && file[f] == 0;
          Success(l)
  }

  /**
    The layout parses exactly when the file reaches past the pointer and
    holds two zero bytes from offset 20 on: the scans never stop early.
   */
  lemma LayoutNeedsTwoZeros(file: seq<byte>)
    ensures ParseLayout(file).Success? <==>
      && TextEndOffset + 4 <= |file|
      && exists i, j :: HeaderBlockSize <= i < j < |file| && file[i] == 0 && file[j] == 0
  {
    if TextEndOffset + 4 <= |file| {
      match FindZero(file, HeaderBlockSize)
      case None =>
      case Some(h) =>
        match FindZero(file, h + 1)
        case None =>
        case Some(f) =>
          assert file[h] == 0 && file[f] == 0;
    }
  }

  /**
    The body bytes the decoding loop reads: offsets BodyStart() up to,
    excluding, the text-end pointer. The loop reads nothing when the pointer
    does not lie past the body start, and reads past the end of the file when
    the pointer lies beyond it.
   */
  function BodyBytes(file: seq<byte>, l: Layout): (r: Result<seq<byte>, Truncation>)
    requires l.BodyStart() <= |file|
    ensures r.Success? <==> l.textEnd <= |file| || l.textEnd <= l.BodyStart()
    ensures r.Failure? ==> r.error == ShortBody
    ensures r.Success? ==> |r.value| == Max(0, l.textEnd - l.BodyStart())
    ensures r.Success? ==> forall i :: 0 <= i < |r.value| ==> r.value[i] == file[l.BodyStart() + i]
  {
    if l.textEnd <= l.BodyStart() then Success([])
    else if l.textEnd <= |file| then Success(file[l.BodyStart()..l.textEnd])
    else Failure(ShortBody)
  }
}
