/**
  MdiChild::ReadQuillFile (mdichild.cpp): the earlier, strict decoder.

  It skips the first two bytes unchecked, returns an empty string when the
  magic is wrong, and otherwise runs the toggle machine over the body
  without escaping anything. A paragraph break only emits the paragraph
  markup: styles stay on across it, and a closing toggle that does not
  match the top of the stack raises the out-of-sequence flag.
 */
module MdiChild {
  import opened Results
  import opened QuillFormat
  import opened Toggles

  /**
    One body byte. Toggles run the shared machine; nothing else touches
    the state. A paragraph break emits the paragraph markup, form feed and
    soft hyphen nothing, any other byte itself.
   */
  function Step(s: State, b: byte): (r: (State, string))
    requires StackMatchesFlags(s)
    ensures StackMatchesFlags(r.0)
    ensures forall a :: IsOn(r.0.flags, a) == (IsOn(s.flags, a) != (b == ControlByte(a)))
    ensures ToggleOf(b).None? ==> r.0 == s
    ensures ToggleOf(b).Some? ==> r == Toggle(s, ToggleOf(b).value)
    ensures b == 0 ==> r.1 == ParagraphBreak
    ensures b == 12 || b == 30 ==> r.1 == ""
    ensures !IsControl(b) ==> r.1 == [b as char]
    ensures s.formatError ==> r.0.formatError
  {
    if b == 0 then (s, ParagraphBreak)
    else if b == 12 || b == 30 then (s, "")
    else
      match ToggleOf(b)
      case Some(a) => Toggle(s, a)
      case None => (s, [b as char])
  }

  /**
    The decoding loop over the body bytes. The stack always matches the
    flags, and once the out-of-sequence flag is raised it stays raised.
   */
  function Run(s: State, body: seq<byte>): (r: (State, string))
    requires StackMatchesFlags(s)
    ensures StackMatchesFlags(r.0)
    ensures s.formatError ==> r.0.formatError
    decreases |body|
  {
    if body == [] then (s, "")
    else
      var (t, done) := Run(s, body[..|body| - 1]);
      var (u, more) := Step(t, body[|body| - 1]);
      (u, done + more)
  }

  /** Run over a body with one more byte is one more Step. */
  lemma RunSnoc(s: State, body: seq<byte>, b: byte)
    requires StackMatchesFlags(s)
    ensures Run(s, body + [b]).0 == Step(Run(s, body).0, b).0
    ensures Run(s, body + [b]).1 == Run(s, body).1 + Step(Run(s, body).0, b).1
  {
    assert (body + [b])[..|body|] == body;
  }

  /** Output is only ever appended: the text of a prefix of the body is a prefix of the text. */
  lemma {:induction false} RunPrefix(s: State, body: seq<byte>, k: nat)
    requires StackMatchesFlags(s)
    requires k <= |body|
    ensures Run(s, body[..k]).1 <= Run(s, body).1
    decreases |body| - k
  {
    if k == |body| {
      assert body[..k] == body;
    } else {
      var init, b := body[..k], body[k];
      assert body[..k + 1] == init + [b];
      RunPrefix(s, body, k + 1);
      RunSnoc(s, init, b);
      var shorter, middle, longer := Run(s, init).1, Run(s, init + [b]).1, Run(s, body).1;
      assert shorter <= middle <= longer;
    }
  }

  /**
    Every byte that is not a control byte is copied as itself, right after
    the text of the bytes before it, whatever toggles and paragraph breaks
    the body holds.
   */
  lemma NonControlByteEmitted(s: State, body: seq<byte>, i: nat)
    requires StackMatchesFlags(s)
    requires i < |body| && !IsControl(body[i])
    ensures Run(s, body[..i]).1 + [body[i] as char] <= Run(s, body).1
  {
    var init, b := body[..i], body[i];
    assert body[..i + 1] == init + [b];
    RunPrefix(s, body, i + 1);
    LastByteEmitted(s, init, b);
    var shorter, longer := Run(s, init + [b]).1, Run(s, body).1;
    assert shorter <= longer;
  }

  /** A last byte that is not a control byte adds exactly its own text. */
  lemma LastByteEmitted(s: State, init: seq<byte>, b: byte)
    requires StackMatchesFlags(s)
    requires !IsControl(b)
    ensures Run(s, init + [b]).1 == Run(s, init).1 + [b as char]
  {
    RunSnoc(s, init, b);
  }

  /** Without a paragraph reset, an attribute is on exactly when its toggle byte occurs an odd number of times in the whole body. */
  lemma {:induction false} FlagsFollowWholeBody(body: seq<byte>, a: Attr)
    ensures IsOn(Run(Start, body).0.flags, a) <==> Occurrences(body, ControlByte(a)) % 2 == 1
    decreases |body|
  {
    if body != [] {
      var init, b := body[..|body| - 1], body[|body| - 1];
      FlagsFollowWholeBody(init, a);
      var t := Run(Start, init).0;
      assert Run(Start, body).0 == Step(t, b).0;
      assert IsOn(Step(t, b).0.flags, a) == (IsOn(t.flags, a) != (b == ControlByte(a)));
      assert Occurrences(body, ControlByte(a)) == Occurrences(init, ControlByte(a)) + (if b == ControlByte(a) then 1 else 0);
    }
  }

  /** A body without control bytes is copied through unchanged. */
  lemma {:induction false} PlainBodyPassesThrough(s: State, body: seq<byte>)
    requires StackMatchesFlags(s)
    requires NoControls(body)
    ensures Run(s, body) == (s, Latin1(body))
    decreases |body|
  {
    if body != [] {
      var init := body[..|body| - 1];
      PlainBodyPassesThrough(s, init);
      assert Latin1(body) == Latin1(init) + [body[|body| - 1] as char];
    }
  }

  /** The attributes toggled by a body, in order. */
  function ToggleSequence(body: seq<byte>): seq<Attr>
  {
    if body == [] then []
    else
      match ToggleOf(body[|body| - 1])
      case Some(a) => ToggleSequence(body[..|body| - 1]) + [a]
      case None => ToggleSequence(body[..|body| - 1])
  }

  /**
    The attributes still open after a toggle sequence, oldest first, as
    long as every toggle of an open attribute closed the most recently
    opened one; None once some toggle closed an attribute out of order.
   */
  function OpenAfter(ts: seq<Attr>): Option<seq<Attr>>
  {
    if ts == [] then Some([]) else Extend(OpenAfter(ts[..|ts| - 1]), ts[|ts| - 1])
  }

  /** One more toggle of `t` on top of the open attributes. */
  function Extend(open: Option<seq<Attr>>, t: Attr): Option<seq<Attr>>
  {
    match open
    case None => None
    case Some(o) =>
      if t !in o then Some(o + [t])
      else if o[|o| - 1] == t then Some(o[..|o| - 1])
      else None
  }

  /** Every "off" toggle closes the most recent attribute that is still open. */
  predicate StrictlyNested(ts: seq<Attr>)
  {
    OpenAfter(ts).Some?
  }

  predicate Distinct(stack: seq<Attr>)
  {
    forall i, j :: 0 <= i < j < |stack| ==> stack[i] != stack[j]
  }

  /** The stack holds each attribute that is on, once. */
  predicate Mirrors(s: State)
  {
    && Distinct(s.stack)
    && (forall a :: a in s.stack <==> IsOn(s.flags, a))
  }

  lemma PopMirrors(s: State, a: Attr)
    requires StackMatchesFlags(s) && Mirrors(s) && IsOn(s.flags, a) && Top(s.stack) == a
    ensures Mirrors(State(Flip(s.flags, a), Pop(s.stack), s.formatError))
  {
    var p := Pop(s.stack);
    assert s.stack == p + [a];
    forall b | b != a
      ensures b in p <==> b in s.stack
    {
    }
  }

  lemma PushMirrors(s: State, a: Attr)
    requires Mirrors(s) && !IsOn(s.flags, a)
    ensures Mirrors(State(Flip(s.flags, a), s.stack + [a], s.formatError))
  {
    var q := s.stack + [a];
    forall i, j | 0 <= i < j < |q|
      ensures q[i] != q[j]
    {
      if j == |s.stack| {
        assert q[i] == s.stack[i];
      }
    }
  }

  /** The nesting invariant of NoFormatErrorIffNested: the flag is down exactly while the toggles nest, and then the stack lists the open attributes. */
  predicate NestingTracked(st: State, ts: seq<Attr>)
  {
    && (!st.formatError <==> StrictlyNested(ts))
    && (!st.formatError ==> Mirrors(st) && OpenAfter(ts) == Some(st.stack))
  }

  lemma ToggleKeepsNesting(st: State, ts: seq<Attr>, a: Attr)
    requires StackMatchesFlags(st) && NestingTracked(st, ts)
    ensures NestingTracked(Toggle(st, a).0, ts + [a])
  {
    assert (ts + [a])[..|ts|] == ts;
    assert OpenAfter(ts + [a]) == Extend(OpenAfter(ts), a);
    if st.formatError {
      assert Toggle(st, a).0.formatError;
    } else if !IsOn(st.flags, a) {
      OpenNests(st, a);
    } else {
      CloseNests(st, a);
    }
  }

  lemma OpenNests(st: State, a: Attr)
    requires StackMatchesFlags(st) && Mirrors(st) && !st.formatError && !IsOn(st.flags, a)
    ensures !Toggle(st, a).0.formatError && Mirrors(Toggle(st, a).0)
    ensures Extend(Some(st.stack), a) == Some(Toggle(st, a).0.stack)
  {
    assert a !in st.stack;
    PushMirrors(st, a);
  }

  lemma CloseNests(st: State, a: Attr)
    requires StackMatchesFlags(st) && Mirrors(st) && !st.formatError && IsOn(st.flags, a)
    ensures !Toggle(st, a).0.formatError <==> Extend(Some(st.stack), a).Some?
    ensures !Toggle(st, a).0.formatError ==>
      Mirrors(Toggle(st, a).0) && Extend(Some(st.stack), a) == Some(Toggle(st, a).0.stack)
  {
    assert a in st.stack;
    if Top(st.stack) == a {
      PopMirrors(st, a);
    }
  }

  /**
    The out-of-sequence flag stays down exactly when the body's toggles are
    strictly nested; while it is down the stack lists the open attributes.
   */
  lemma {:induction false} NoFormatErrorIffNested(body: seq<byte>)
    ensures !Run(Start, body).0.formatError <==> StrictlyNested(ToggleSequence(body))
    ensures !Run(Start, body).0.formatError ==>
      Mirrors(Run(Start, body).0) && OpenAfter(ToggleSequence(body)) == Some(Run(Start, body).0.stack)
    decreases |body|
  {
    if body != [] {
      var init, b := body[..|body| - 1], body[|body| - 1];
      NoFormatErrorIffNested(init);
      var st := Run(Start, init).0;
      var ts := ToggleSequence(init);
      assert NestingTracked(st, ts);
      match ToggleOf(b)
      case None =>
        assert ToggleSequence(body) == ts;
        assert Run(Start, body).0 == st;
      case Some(a) =>
        assert ToggleSequence(body) == ts + [a];
        assert Run(Start, body).0 == Toggle(st, a).0;
        ToggleKeepsNesting(st, ts, a);
    }
  }

  /** What ReadQuillFile gives back: the document text and the out-of-sequence flag. */
  datatype Read = Read(contents: string, formatError: bool)

  /** The document text around the decoded body. */
  function Framed(header: seq<byte>, body: string, footer: seq<byte>): string
  {
    "Header = " + Latin1(header) + "\n\n\n\nContents = " + "<P>" + body + "</P>"
    + "\n\n\n\nFooter = " + Latin1(footer)
  }

  /**
    ReadQuillFile over the whole stream. The magic is read as QDataStream
    reads it, zero past the end of the file, so a wrong or missing magic
    gives the empty string (the out-of-sequence flag keeps the caller's
    false). Otherwise the text is the header, the body between paragraph
    tags and the footer. A read past the end after the magic is a failure.
   */
  function ReadQuillFile(file: seq<byte>): (r: Result<Read, Truncation>)
    ensures !HasMagic(file) ==> r == Success(Read("", false))
    ensures r.Success? && r.value.contents == "" <==> !HasMagic(file)
    ensures r.Success? <==>
      !HasMagic(file) || (ParseLayout(file).Success? && BodyBytes(file, ParseLayout(file).value).Success?)
    ensures r.Success? && HasMagic(file) ==>
      var l := ParseLayout(file).value;
      var (st, text) := Run(Start, BodyBytes(file, l).value);
      r.value == Read(Framed(l.header, text, l.footer), st.formatError)
  {
    StreamMagicIffHasMagic(file);
    if StreamMagic(file) != Magic then Success(Read("", false))
    else
      match ParseLayout(file)
      case Failure(e) => Failure(e)
      case Success(l) =>
        match BodyBytes(file, l)
        case Failure(e) => Failure(e)
        case Success(body) =>
          var (st, text) := Run(Start, body);
          Success(Read(Framed(l.header, text, l.footer), st.formatError))
  }

  /** Two files that agree from offset `k` on. */
  predicate AgreeFrom(f1: seq<byte>, f2: seq<byte>, k: nat)
  {
    |f1| == |f2| && forall i :: k <= i < |f1| ==> f1[i] == f2[i]
  }

  lemma FindZeroAgrees(f1: seq<byte>, f2: seq<byte>, from: nat, k: nat)
    requires AgreeFrom(f1, f2, k) && k <= from
    ensures FindZero(f1, from) == FindZero(f2, from)
    decreases |f1| - from
  {
    if from < |f1| {
      FindZeroAgrees(f1, f2, from + 1, k);
    }
  }

  lemma ParseLayoutAgrees(f1: seq<byte>, f2: seq<byte>)
    requires AgreeFrom(f1, f2, 2)
    ensures ParseLayout(f1) == ParseLayout(f2)
  {
    if 14 <= |f1| {
      assert BigEndian32(f1, 10) == BigEndian32(f2, 10);
      FindZeroAgrees(f1, f2, 20, 2);
      match FindZero(f1, 20)
      case None =>
      case Some(h) =>
        FindZeroAgrees(f1, f2, h + 1, 2);
        match FindZero(f1, h + 1)
        case None =>
        case Some(f) =>
          assert f1[20..h] == f2[20..h];
          assert f1[h + 1..f] == f2[h + 1..f];
    }
  }

  /** The first two bytes, checked by quill.cpp, make no difference here. */
  lemma FirstTwoBytesIgnored(f1: seq<byte>, f2: seq<byte>)
    requires |f1| == |f2| && 2 <= |f1| && f1[2..] == f2[2..]
    ensures ReadQuillFile(f1) == ReadQuillFile(f2)
  {
    forall i | 2 <= i < |f1|
      ensures f1[i] == f2[i]
    {
      assert f1[i] == f1[2..][i - 2];
    }
    if 10 <= |f1| {
      assert f1[2..10] == f2[2..10];
      ParseLayoutAgrees(f1, f2);
      match ParseLayout(f1)
      case Failure(_) =>
      case Success(l) =>
        if l.BodyStart() < l.textEnd <= |f1| {
          assert f1[l.BodyStart()..l.textEnd] == f2[l.BodyStart()..l.textEnd];
        }
    }
  }

  /**
    loadFile opens the file in QFile::Text mode, in which Qt drops every
    carriage return (byte 13) as it reads: the stream ReadQuillFile sees.
   */
  function DropCarriageReturns(file: seq<byte>): (r: seq<byte>)
    ensures 13 !in r
    ensures 13 !in file ==> r == file
    ensures |r| <= |file|
  {
    if file == [] then []
    else
      var init, b := file[..|file| - 1], file[|file| - 1];
      assert 13 !in file ==> 13 !in init;
      assert init + [b] == file;
      DropCarriageReturns(init) + (if b == 13 then [] else [b])
  }

  /** Every other byte survives text mode, as often as it occurs in the file. */
  lemma {:induction false} DropKeepsOtherBytes(file: seq<byte>, x: byte)
    requires x != 13
    ensures Occurrences(DropCarriageReturns(file), x) == Occurrences(file, x)
    decreases |file|
  {
    if file != [] {
      var init, b := file[..|file| - 1], file[|file| - 1];
      DropKeepsOtherBytes(init, x);
      var d := DropCarriageReturns(init);
      assert Occurrences(file, x) == Occurrences(init, x) + (if b == x then 1 else 0);
      if b != 13 {
        assert DropCarriageReturns(file) == d + [b];
        assert (d + [b])[..|d|] == d;
      } else {
        assert DropCarriageReturns(file) == d + [];
        assert d + [] == d;
      }
    }
  }

  /** Text mode's last step: the stream of the file without its last byte, then that byte unless it is 13. */
  lemma DropLast(file: seq<byte>)
    requires file != []
    ensures DropCarriageReturns(file) ==
      DropCarriageReturns(file[..|file| - 1]) + (if file[|file| - 1] == 13 then [] else [file[|file| - 1]])
  {
  }

  /**
    Associativity of concatenation, stated apart so that the solver proves it
    in an empty context rather than beside DropCarriageReturns' definition.
   */
  lemma AppendAssociates(x: seq<byte>, y: seq<byte>, z: seq<byte>)
    ensures (x + y) + z == x + (y + z)
  {
  }

  /** Text mode keeps the surviving bytes in order: dropping distributes over concatenation. */
  lemma {:induction false} DropAppend(a: seq<byte>, b: seq<byte>)
    ensures DropCarriageReturns(a + b) == DropCarriageReturns(a) + DropCarriageReturns(b)
    decreases |b|
  {
    if b == [] {
      assert a + b == a;
    } else {
      var init, x := b[..|b| - 1], b[|b| - 1];
      DropAppend(a, init);
      var ab := a + b;
      assert ab[..|ab| - 1] == a + init && ab[|ab| - 1] == x;
      DropLast(ab);
      DropLast(b);
      var da, di := DropCarriageReturns(a), DropCarriageReturns(init);
      var keep := if x == 13 then [] else [x];
      AppendAssociates(da, di, keep);
    }
  }

  /** Text mode's first step: the first byte unless it is 13, then the stream of the rest. */
  lemma DropFirst(x: byte, rest: seq<byte>)
    ensures DropCarriageReturns([x] + rest) == (if x == 13 then [] else [x]) + DropCarriageReturns(rest)
  {
    DropAppend([x], rest);
    DropLast([x]);
    assert [x][..0] == [];
  }

  /**
    `n` reads through a QFile in text mode: the bytes they return and the raw
    bytes they consume. Each read skips any 13 and takes the next byte; the
    reads stop early only at the end of the file.
   */
  function TextRead(raw: seq<byte>, n: nat): (r: (seq<byte>, nat))
    ensures |r.0| <= r.1 <= |raw|
    ensures |r.0| <= n
    ensures |r.0| == n || r.1 == |raw|
    ensures 0 < n && |r.0| == n ==> 0 < r.1 && raw[r.1 - 1] != 13
    decreases |raw|
  {
    if n == 0 || raw == [] then ([], 0)
    else
      var x := raw[0];
      var (kept, used) := TextRead(raw[1..], if x == 13 then n else n - 1);
      (if x == 13 then kept else [x] + kept, used + 1)
  }

  /** The bytes the reads return are exactly the raw bytes they consumed, less their 13s. */
  lemma {:induction false} TextReadDrops(raw: seq<byte>, n: nat)
    ensures TextRead(raw, n).0 == DropCarriageReturns(raw[..TextRead(raw, n).1])
    decreases |raw|
  {
    if n != 0 && raw != [] {
      var x, rest := raw[0], raw[1..];
      var m := if x == 13 then n else n - 1;
      TextReadDrops(rest, m);
      var (kept, used) := TextRead(rest, m);
      var consumed := rest[..used];
      assert raw[..used + 1] == [x] + consumed;
      DropFirst(x, consumed);
      if x == 13 {
        assert TextRead(raw, n) == (kept, used + 1);
        assert [] + kept == kept;
      } else {
        assert TextRead(raw, n) == ([x] + kept, used + 1);
      }
    }
  }

  /** Reads over bytes with no 13 among the first `n` take those bytes unchanged. */
  lemma {:induction false} TextReadPlain(raw: seq<byte>, n: nat)
    requires forall i :: 0 <= i < Min(n, |raw|) ==> raw[i] != 13
    ensures TextRead(raw, n) == (raw[..Min(n, |raw|)], Min(n, |raw|))
    decreases |raw|
  {
    if n != 0 && raw != [] {
      TextReadPlain(raw[1..], n - 1);
      assert raw[..Min(n, |raw|)] == [raw[0]] + raw[1..][..Min(n - 1, |raw| - 1)];
    }
  }

  /**
    The stream ReadQuillFile sees through loadFile's QFile, opened in text
    mode. The first two bytes and the six table-length bytes are passed over
    by `skipRawData`, which seeks over raw bytes, so a 13 among them is
    skipped like any other byte. The twelve reads of the magic and the
    pointer, and every read of the header, footer and body, drop 13s.
   */
  function TextModeStream(file: seq<byte>): (r: seq<byte>)
    ensures |r| <= |file|
  {
    var skipped := Min(2, |file|);
    var rest := file[skipped..];
    var (kept, used) := TextRead(rest, 12);
    var after := rest[used..];
    var gap := Min(6, |after|);
    file[..skipped] + kept + after[..gap] + DropCarriageReturns(after[gap..])
  }

  /**
    When the twelve bytes read after the first skip hold no 13, the stream is
    the file's first 20 bytes as stored, then the rest without its 13s.
   */
  lemma SkipsPassRawBytes(file: seq<byte>)
    requires 20 <= |file|
    requires forall i :: 2 <= i < 14 ==> file[i] != 13
    ensures TextModeStream(file) == file[..20] + DropCarriageReturns(file[20..])
  {
    var rest := file[2..];
    TextReadPlain(rest, 12);
    var after := rest[12..];
    assert file[..2] + rest[..12] + after[..6] == file[..20];
  }

  /** A file with no 13 at all is read exactly as stored. */
  lemma PlainFileUnchanged(file: seq<byte>)
    requires 13 !in file
    ensures TextModeStream(file) == file
  {
    var skipped := Min(2, |file|);
    var rest := file[skipped..];
    TextReadPlain(rest, 12);
    var used := Min(12, |rest|);
    var after := rest[used..];
    var gap := Min(6, |after|);
    var tail := after[gap..];
    assert 13 !in tail by {
      assert tail == file[skipped + used + gap..];
    }
    assert DropCarriageReturns(tail) == tail;
    CutsRejoin(file, skipped, used, gap);
  }

  /** Cutting a sequence at three successive points and joining the four pieces gives it back. */
  lemma CutsRejoin(file: seq<byte>, i: nat, j: nat, k: nat)
    requires i + j + k <= |file|
    ensures file[..i] + file[i..][..j] + file[i..][j..][..k] + file[i..][j..][k..] == file
  {
    var rest := file[i..];
    var after := rest[j..];
    assert after[..k] + after[k..] == after;
    assert rest[..j] + after == rest;
    assert file[..i] + rest == file;
    AppendAssociates(file[..i] + rest[..j], after[..k], after[k..]);
    AppendAssociates(file[..i], rest[..j], after);
  }

  /**
    A 13 in the skipped table lengths stays in the stream: Qt reads this
    file's page header as "H" at offset 20, where dropping every 13 would
    shift the header onto the zero byte before it.
   */
  lemma SkippedCarriageReturnKept(file: seq<byte>)
    requires file == [0, 20] + Magic + [0, 0, 0, 22] + [0, 13, 0, 0, 0, 0] + [72, 0, 0]
    ensures TextModeStream(file) == file
    ensures DropCarriageReturns(file) != file
  {
    SkipsPassRawBytes(file);
    var tail := file[20..];
    assert tail == [72, 0, 0];
    assert file[..20] + tail == file;
    assert file[15] == 13;
  }

  /** What loadFile makes of a file: a "not a Quill file" rejection, or the text shown with an optional warning. */
  datatype Loaded = NotQuillFile | Shown(html: string, outOfSequenceWarning: bool)

  /**
    loadFile: ReadQuillFile over the text-mode stream, and an empty result
    is "not a Quill file".
   */
  function LoadFile(file: seq<byte>): (r: Result<Loaded, Truncation>)
    ensures r.Success? && r.value.NotQuillFile? <==> !HasMagic(TextModeStream(file))
    ensures r.Success? && r.value.Shown? ==>
      && HasMagic(TextModeStream(file))
      && r.value.html != ""
      && ReadQuillFile(TextModeStream(file)) == Success(Read(r.value.html, r.value.outOfSequenceWarning))
    ensures r.Failure? <==> ReadQuillFile(TextModeStream(file)).Failure?
  {
    match ReadQuillFile(TextModeStream(file))
    case Failure(e) => Failure(e)
    case Success(read) =>
      if read.contents == "" then Success(NotQuillFile)
      else Success(Shown(read.contents, read.formatError))
  }
}
