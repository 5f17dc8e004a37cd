/**
  The STRIPPER (qdos/stripper.c): the original QDOS plain-text extractor.

  For each file it checks the magic, skips the page header and footer with
  getline, and copies the body up to the text-end pointer as plain text:
  paragraph ends and line ends become newlines, tabs are kept, other control
  codes are dropped and lines are wrapped at column 80. Reads use C stdio,
  so a read past the end of the file gives EOF (-1) rather than a byte.
 */
module Stripper {
  import opened Results
  import opened QuillFormat

  /** Lines are wrapped at this column (MAX_WIDE). */
  const MaxWide: nat := 80

  /** Size of the header and footer buffers handed to getline. */
  const LineBufferSize: int := 120

  /** What fgetc returns: a byte, or EOF. */
  type CharCode = c: int | -1 <= c < 256

  const Eof: CharCode := -1

  /** The stream left after reading `k` bytes (empty once the file is exhausted). */
  function Drop(file: seq<byte>, k: nat): (r: seq<byte>)
    ensures |r| == Max(0, |file| - k)
    ensures forall i :: 0 <= i < |r| ==> r[i] == file[k + i]
  {
    if k <= |file| then file[k..] else []
  }

  /**
    getline(s, n, fp): reads characters until a zero byte, EOF, or n-1
    characters. It returns the number of characters read plus one (the
    bytes consumed, terminator included) when a zero byte came within
    n-1 reads, and 0 at EOF or when the text is too long.
   */
  function GetLine(stream: seq<byte>, n: int): (r: nat)
    requires 2 <= n
    ensures r > 0 <==> exists k :: 0 <= k < n - 1 && k < |stream| && stream[k] == 0
    ensures r > 0 ==>
      && r <= n - 1
      && r <= |stream|
      && stream[r - 1] == 0
      && forall j :: 0 <= j < r - 1 ==> stream[j] != 0
  {
    match FindZero(stream, 0)
    case None => 0
    case Some(k) => if k < n - 1 then k + 1 else 0
  }

  /**
    getbuff(s, n, fp): reads characters until EOF or n-1 characters and
    returns how many it read plus one, so it never returns 0.
   */
  function GetBuff(stream: seq<byte>, n: int): (r: (seq<byte>, nat))
    ensures |r.0| == Min(Max(n - 1, 0), |stream|)
    ensures r.0 == stream[..|r.0|]
    ensures r.1 == |r.0| + 1
    decreases |stream|
  {
    if n - 1 <= 0 || stream == [] then ([], 1)
    else
      var (rest, count) := GetBuff(stream[1..], n - 1);
      ([stream[0]] + rest, count + 1)
  }

  /** The character fgetc returns at offset `pos`. */
  function ReadChar(file: seq<byte>, pos: int): CharCode
  {
    if 0 <= pos < |file| then file[pos] else Eof
  }

  /** The characters the body loop reads: offsets `from` up to, excluding, `to`. */
  function BodyChars(file: seq<byte>, from: int, to: int): (cs: seq<CharCode>)
    ensures |cs| == Max(0, to - from)
    ensures forall i :: 0 <= i < |cs| ==> cs[i] == ReadChar(file, from + i)
    decreases Max(0, to - from)
  {
    if to <= from then []
    else
      var init := BodyChars(file, from, to - 1);
      assert |init| == to - 1 - from;
      init + [ReadChar(file, to - 1)]
  }

  /** Text made only of newlines, tabs and printable 8-bit characters. */
  predicate PlainText(out: string)
  {
    forall i :: 0 <= i < |out| ==> out[i] == '\n' || out[i] == '\t' || 32 <= out[i] as int < 256
  }

  /**
    One body character: 0, 10 and 13 end the line, a tab is copied and
    counts one column, other control codes and EOF produce nothing, and a
    printable character at column 80 is preceded by a newline (a space in
    that position is dropped).
   */
  function StripStep(wide: nat, ch: CharCode): (r: (nat, string))
    ensures ('\n' in r.1) <==> ch == 0 || ch == 10 || ch == 13 || (ch > 31 && wide == MaxWide)
    ensures ch == 0 || ch == 10 || ch == 13 ==> r == (0, "\n")
    ensures ch == 9 ==> r == (wide + 1, "\t")
    ensures ch < 32 && ch !in {0, 9, 10, 13} ==> r == (wide, "")
    ensures ch > 31 && !(ch == 32 && wide == MaxWide) ==> |r.1| > 0 && r.1[|r.1| - 1] == ch as char
    ensures ch != 9 && wide <= MaxWide ==> r.0 <= MaxWide
    ensures PlainText(r.1)
  {
    if ch == 0 || ch == 10 || ch == 13 then (0, "\n")
    else if ch == 9 then (wide + 1, "\t")
    else if ch > 31 then
      if wide == MaxWide then
        if ch == 32 then (0, "\n") else (1, "\n" + [ch as char])
      else (wide + 1, [ch as char])
    else (wide, "")
  }

  /**
    What a printable character writes: a space at column 80 writes only the
    newline that wraps the line, and every other printable character writes
    exactly itself, after that newline when the column is 80.
   */
  lemma StripStepPrintable(wide: nat, ch: CharCode)
    requires ch > 31
    ensures ch == 32 && wide == MaxWide ==> StripStep(wide, ch) == (0, "\n")
    ensures !(ch == 32 && wide == MaxWide) ==>
      StripStep(wide, ch) == (if wide == MaxWide then (1, "\n" + [ch as char]) else (wide + 1, [ch as char]))
  {
  }

  predicate NoTab(chars: seq<CharCode>)
  {
    forall i :: 0 <= i < |chars| ==> chars[i] != 9
  }

  /**
    The body loop: the column and the text written. The text holds no
    control character but newline and tab, and without tabs the column
    never exceeds 80.
   */
  function StripRun(wide: nat, chars: seq<CharCode>): (r: (nat, string))
    ensures PlainText(r.1)
    ensures NoTab(chars) && wide <= MaxWide ==> r.0 <= MaxWide
    decreases |chars|
  {
    if chars == [] then (wide, "")
    else
      var (w, done) := StripRun(wide, chars[..|chars| - 1]);
      var (w', more) := StripStep(w, chars[|chars| - 1]);
      (w', done + more)
  }

  /** Characters written since the last newline. */
  function TrailingLength(out: string): nat
  {
    if out == [] then 0
    else if out[|out| - 1] == '\n' then 0
    else TrailingLength(out[..|out| - 1]) + 1
  }

  /** The length of the longest line of a text. */
  function LongestLine(out: string): nat
  {
    if out == [] then 0 else Max(LongestLine(out[..|out| - 1]), TrailingLength(out))
  }

  lemma AppendChar(out: string, c: char)
    ensures TrailingLength(out + [c]) == if c == '\n' then 0 else TrailingLength(out) + 1
    ensures LongestLine(out + [c]) == Max(LongestLine(out), TrailingLength(out + [c]))
  {
    assert (out + [c])[..|out|] == out;
  }

  /** One step keeps the column equal to the length of the current line, and without a tab keeps every line within 80. */
  lemma StepKeepsColumn(out: string, wide: nat, ch: CharCode)
    requires TrailingLength(out) == wide
    ensures TrailingLength(out + StripStep(wide, ch).1) == StripStep(wide, ch).0
    ensures ch != 9 && wide <= MaxWide && LongestLine(out) <= MaxWide ==>
      LongestLine(out + StripStep(wide, ch).1) <= MaxWide
  {
    var piece := StripStep(wide, ch).1;
    if |piece| == 0 {
      assert out + piece == out;
    } else if |piece| == 1 {
      AppendChar(out, piece[0]);
      assert piece == [piece[0]];
    } else {
      assert piece == "\n" + [ch as char];
      AppendChar(out, '\n');
      AppendChar(out + "\n", ch as char);
      assert out + piece == (out + "\n") + [ch as char];
    }
  }

  /** The loop's last step: the text so far, then what the last character writes. */
  lemma StripRunLast(wide: nat, chars: seq<CharCode>)
    requires chars != []
    ensures StripRun(wide, chars) ==
      var (w, done) := StripRun(wide, chars[..|chars| - 1]);
      (StripStep(w, chars[|chars| - 1]).0, done + StripStep(w, chars[|chars| - 1]).1)
  {
  }

  /**
    The column counter always equals the number of characters written
    since the last newline, and without tabs no line exceeds 80.
   */
  lemma {:induction false} RunKeepsColumn(out: string, wide: nat, chars: seq<CharCode>)
    requires TrailingLength(out) == wide
    ensures TrailingLength(out + StripRun(wide, chars).1) == StripRun(wide, chars).0
    ensures NoTab(chars) && wide <= MaxWide && LongestLine(out) <= MaxWide ==>
      LongestLine(out + StripRun(wide, chars).1) <= MaxWide
    decreases |chars|
  {
    if chars == [] {
      assert out + StripRun(wide, chars).1 == out;
    } else {
      var init, ch := chars[..|chars| - 1], chars[|chars| - 1];
      RunKeepsColumn(out, wide, init);
      var (w, done) := StripRun(wide, init);
      var (w', more) := StripStep(w, ch);
      StepKeepsColumn(out + done, w, ch);
      StripRunLast(wide, chars);
      assert out + (done + more) == (out + done) + more;
      if NoTab(chars) {
        assert NoTab(init) by {
          forall i | 0 <= i < |init|
            ensures init[i] != 9
          {
            assert init[i] == chars[i];
          }
        }
        assert ch == chars[|chars| - 1];
      }
    }
  }

  /**
    The wrap test is `wide == MAX_WIDE`: once a tab has carried the column
    past 80, printable characters are copied without ever wrapping again,
    until the next line end.
   */
  lemma {:induction false} PastColumnNeverWraps(wide: nat, chars: seq<CharCode>)
    requires wide > MaxWide
    requires forall i :: 0 <= i < |chars| ==> chars[i] > 31
    ensures StripRun(wide, chars).0 == wide + |chars|
    ensures '\n' !in StripRun(wide, chars).1
    ensures |StripRun(wide, chars).1| == |chars|
    decreases |chars|
  {
    if chars != [] {
      PastColumnNeverWraps(wide, chars[..|chars| - 1]);
    }
  }

  /** What becomes of one input file. */
  datatype Outcome = NotQuill | ReadError | Converted(text: string)

  /** The eight magic characters getbuff(buffer, 9, fp) reads after the two skipped bytes. */
  function MagicRead(file: seq<byte>): (m: seq<byte>)
    ensures m == Magic <==> HasMagic(file)
  {
    var m := GetBuff(Drop(file, 2), 9).0;
    assert HasMagic(file) ==> m == file[2..10];
    m
  }

  /** What the first getline returns: the page header's length plus one, or 0. */
  function HeaderCount(file: seq<byte>): nat
  {
    GetLine(Drop(file, HeaderBlockSize), LineBufferSize)
  }

  /** What the second getline returns, reading on from the header's terminator. */
  function FooterCount(file: seq<byte>): nat
  {
    GetLine(Drop(file, HeaderBlockSize + HeaderCount(file)), LineBufferSize)
  }

  /** curpos: the header block, then the bytes both getline calls consumed. */
  function CurPos(file: seq<byte>): nat
  {
    HeaderBlockSize + HeaderCount(file) + FooterCount(file)
  }

  /** The text-end pointer read as a 68000 `long`; a counted header means the file reaches offset 20. */
  function EndPos(file: seq<byte>): (e: int)
    requires HeaderCount(file) > 0
    ensures -0x8000_0000 <= e < 0x8000_0000
  {
    Signed32(BigEndian32(file, TextEndOffset))
  }

  /**
    The per-file work of main: skip two bytes, read the magic with getbuff
    and compare it, read the text-end pointer, skip six bytes, read the
    header and footer with getline (a 0 return is a read error), then
    filter the body from curpos = 20 + both getline counts up to the
    pointer.
   */
  function Strip(file: seq<byte>): (r: Outcome)
    ensures r.NotQuill? <==> !HasMagic(file)
    ensures r.ReadError? <==> HasMagic(file) && (HeaderCount(file) == 0 || FooterCount(file) == 0)
  {
    if MagicRead(file) != Magic then NotQuill
    else if HeaderCount(file) == 0 || FooterCount(file) == 0 then ReadError
    else
      Converted(StripRun(0, BodyChars(file, CurPos(file), EndPos(file))).1)
  }

  /** getline on the stream after `p` bytes finds the first zero byte at or after `p`. */
  lemma GetLineFindsZero(file: seq<byte>, p: nat)
    ensures GetLine(Drop(file, p), LineBufferSize) ==
      match FindZero(file, p)
      case None => 0
      case Some(k) => if k - p < LineBufferSize - 1 then k - p + 1 else 0
  {
    var stream := Drop(file, p);
    match FindZero(file, p)
    case None =>
    case Some(k) =>
      assert stream[k - p] == 0;
  }

  /** With the layout parsed, the first getline counts the header and its terminator unless the header is too long. */
  lemma HeaderCountAgrees(file: seq<byte>)
    requires ParseLayout(file).Success?
    ensures HeaderCount(file) > 0 <==> |ParseLayout(file).value.header| < LineBufferSize - 1
    ensures HeaderCount(file) > 0 ==> HeaderCount(file) == |ParseLayout(file).value.header| + 1
  {
    GetLineFindsZero(file, HeaderBlockSize);
  }

  /** Likewise the second getline counts the footer and its terminator. */
  lemma FooterCountAgrees(file: seq<byte>)
    requires ParseLayout(file).Success?
    requires HeaderCount(file) == |ParseLayout(file).value.header| + 1
    ensures FooterCount(file) > 0 <==> |ParseLayout(file).value.footer| < LineBufferSize - 1
    ensures FooterCount(file) > 0 ==> FooterCount(file) == |ParseLayout(file).value.footer| + 1
  {
    GetLineFindsZero(file, HeaderBlockSize + HeaderCount(file));
    var h := FindZero(file, HeaderBlockSize).value;
    assert HeaderBlockSize + HeaderCount(file) == h + 1;
  }

  /** Without a parsed layout one of the two getline calls meets EOF first. */
  lemma CountsFailWithLayout(file: seq<byte>)
    requires ParseLayout(file).Failure?
    ensures HeaderCount(file) == 0 || FooterCount(file) == 0
  {
    GetLineFindsZero(file, HeaderBlockSize);
    if HeaderCount(file) > 0 {
      var h := FindZero(file, HeaderBlockSize).value;
      GetLineFindsZero(file, h + 1);
    }
  }

  /**
    The two getline counts against the layout: both are non-zero exactly
    when the header and footer parse and each is shorter than 119
    characters, and then they add up to the body start.
   */
  lemma CountsFollowLayout(file: seq<byte>)
    ensures HeaderCount(file) > 0 && FooterCount(file) > 0 <==>
      && ParseLayout(file).Success?
      && |ParseLayout(file).value.header| < LineBufferSize - 1
      && |ParseLayout(file).value.footer| < LineBufferSize - 1
    ensures HeaderCount(file) > 0 && FooterCount(file) > 0 ==>
      && CurPos(file) == ParseLayout(file).value.BodyStart()
      && EndPos(file) == Signed32(ParseLayout(file).value.textEnd)
  {
    if ParseLayout(file).Failure? {
      CountsFailWithLayout(file);
    } else {
      HeaderCountAgrees(file);
      if HeaderCount(file) > 0 {
        FooterCountAgrees(file);
      }
    }
  }

  /**
    Unfolds Strip on a converted file: its text is Strip's own last branch.
    This adds nothing about converted files; it lets StripTextFromLayout
    name the body without unfolding Strip itself.
   */
  lemma StripText(file: seq<byte>)
    requires Strip(file).Converted?
    ensures HeaderCount(file) > 0
    ensures Strip(file).text ==
      StripRun(0, BodyChars(file, CurPos(file), EndPos(file))).1
  {
  }

  /**
    The stripper agrees with the Qt decoders' layout: it converts a file
    exactly when the magic is right and the page header and footer are
    terminated within getline's 119 characters, and then the body it
    filters (StripText) starts at the layout's body start and ends at the
    text-end pointer read as a signed value.
   */
  lemma StripAgreesWithLayout(file: seq<byte>)
    ensures Strip(file).Converted? <==>
      && HasMagic(file)
      && ParseLayout(file).Success?
      && |ParseLayout(file).value.header| < LineBufferSize - 1
      && |ParseLayout(file).value.footer| < LineBufferSize - 1
    ensures Strip(file).Converted? ==>
      && HeaderCount(file) > 0
      && CurPos(file) == ParseLayout(file).value.BodyStart()
      && EndPos(file) == Signed32(ParseLayout(file).value.textEnd)
  {
    if !HasMagic(file) {
      assert Strip(file).NotQuill?;
    } else if HeaderCount(file) == 0 || FooterCount(file) == 0 {
      assert Strip(file).ReadError?;
      CountsFollowLayout(file);
    } else {
      CountsFollowLayout(file);
    }
  }

  /**
    The text of a converted file is the filter run over the Qt layout's
    body: from the body start up to the text-end pointer read as signed.
    (A converted file always has a parsed layout, by StripAgreesWithLayout.)
   */
  lemma StripTextFromLayout(file: seq<byte>)
    requires Strip(file).Converted?
    requires ParseLayout(file).Success?
    ensures Strip(file).text ==
      StripRun(0, BodyChars(file, ParseLayout(file).value.BodyStart(), Signed32(ParseLayout(file).value.textEnd))).1
  {
    var l := ParseLayout(file).value;
    BodyBoundsFollowLayout(file, l.BodyStart(), Signed32(l.textEnd));
    StripTextOver(file, l.BodyStart(), Signed32(l.textEnd));
  }

  /** In a converted file, curpos and endpos are the layout's body start and its pointer read as signed. */
  lemma BodyBoundsFollowLayout(file: seq<byte>, from: int, to: int)
    requires Strip(file).Converted?
    requires ParseLayout(file).Success?
    requires from == ParseLayout(file).value.BodyStart()
    requires to == Signed32(ParseLayout(file).value.textEnd)
    ensures HeaderCount(file) > 0
    ensures CurPos(file) == from
    ensures EndPos(file) == to
  {
    StripAgreesWithLayout(file);
  }

  /** The text of a converted file, given its curpos and endpos. */
  lemma StripTextOver(file: seq<byte>, from: int, to: int)
    requires Strip(file).Converted?
    requires HeaderCount(file) > 0
    requires CurPos(file) == from
    requires EndPos(file) == to
    ensures Strip(file).text == StripRun(0, BodyChars(file, from, to)).1
  {
  }

  /** When the body the loop reads holds no tab, every line of the stripped text fits in 80 columns. */
  lemma StrippedLinesFit(file: seq<byte>)
    requires Strip(file).Converted?
    requires NoTab(BodyChars(file, CurPos(file), EndPos(file)))
    ensures LongestLine(Strip(file).text) <= MaxWide
  {
    var chars := BodyChars(file, CurPos(file), EndPos(file));
    RunKeepsColumn("", 0, chars);
    assert "" + StripRun(0, chars).1 == StripRun(0, chars).1;
  }

  /**
    The output file name: the output directory, the input name without its
    five-character device prefix and four-character extension, and "_txt".
    strncat's count is strlen - 9 as an unsigned size_t, so a name shorter
    than nine characters keeps everything after the prefix.
   */
  function OutputName(outdir: string, filename: string): (r: string)
    requires 5 <= |filename| < 32
    ensures 9 <= |filename| ==> r == outdir + filename[5..|filename| - 4] + "_txt"
    ensures |filename| < 9 ==> r == outdir + filename[5..] + "_txt"
  {
    var count := (|filename| - 9) % 0x1_0000_0000;
    var tail := filename[5..];
    assert 9 <= |filename| ==> tail[..Min(count, |tail|)] == filename[5..|filename| - 4];
    outdir + tail[..Min(count, |tail|)] + "_txt"
  }
}
