/**
  The QuillDoc decoder (quill.cpp): the latest, permissive variant.

  It insists on a header-block length of 20 and the magic "vrm1qdf0",
  extracts the page header and footer, and turns the body into an HTML
  string: toggles open and close tags, a paragraph break (byte 0) closes
  every open tag and resets all styles, HTML metacharacters are escaped and
  a few bytes are substituted.
 */
module Quill {
  import opened Results
  import opened QuillFormat
  import opened Toggles

  /** The only header-block length the decoder accepts. */
  const ExpectedHeaderLength: nat := 20

  /** A tab is replaced by four hard spaces. */
  const HardTab: string := "&nbsp;&nbsp;&nbsp;&nbsp;"

  /**
    The text emitted for a byte that is not a control byte: metacharacters
    and tab become entities, 96 becomes a pound sign and 127 a copyright
    sign; everything else is appended unchanged.
   */
  function EscapeByte(b: byte): (r: string)
    ensures |r| >= 1
    ensures '<' !in r && '>' !in r
    ensures r[0] == '&' <==> b in {9, 38, 60, 62, 96, 127}
  {
    if b == 9 then HardTab
    else if b == 60 then "&lt;"
    else if b == 62 then "&gt;"
    else if b == 38 then "&amp;"
    else if b == 96 then "&pound;"
    else if b == 127 then "&copy;"
    else [b as char]
  }

  /** Closing tags for every entry of the stack, top first. */
  function CloseAll(stack: seq<Attr>): string
    decreases |stack|
  {
    if stack == [] then "" else CloseTag(Top(stack)) + CloseAll(Pop(stack))
  }

  /**
    Closing a stack pushed in two parts closes the later part first: the
    tags come out in last-in first-out order.
   */
  lemma {:induction false} CloseAllLastInFirstOut(lower: seq<Attr>, upper: seq<Attr>)
    ensures CloseAll(lower + upper) == CloseAll(upper) + CloseAll(lower)
    decreases |upper|
  {
    if upper == [] {
      assert lower + upper == lower;
    } else {
      assert Top(lower + upper) == Top(upper);
      assert Pop(lower + upper) == lower + Pop(upper);
      CloseAllLastInFirstOut(lower, Pop(upper));
    }
  }

  /**
    One body byte. A paragraph break resets every flag and empties the
    stack; toggles run the shared toggle machine; form feed and soft hyphen
    produce nothing; every other byte leaves the state alone.
   */
  function Step(s: State, b: byte): (r: (State, string))
    requires StackMatchesFlags(s)
    ensures StackMatchesFlags(r.0)
    ensures forall a :: IsOn(r.0.flags, a) == (b != 0 && (IsOn(s.flags, a) != (b == ControlByte(a))))
    ensures b == 0 ==> r.0.stack == [] && r.1 == CloseAll(s.stack) + ParagraphBreak
    ensures ToggleOf(b).Some? ==> r == Toggle(s, ToggleOf(b).value)
    ensures !IsControl(b) ==> r == (s, EscapeByte(b))
    ensures b == 12 || b == 30 ==> r == (s, "")
  {
    if b == 0 then (State(AllOff, [], s.formatError), CloseAll(s.stack) + ParagraphBreak)
    else if b == 12 || b == 30 then (s, "")
    else
      match ToggleOf(b)
      case Some(a) => Toggle(s, a)
      case None => (s, EscapeByte(b))
  }

  /** The decoding loop over the body bytes, in order. */
  function Run(s: State, body: seq<byte>): (r: (State, string))
    requires StackMatchesFlags(s)
    ensures StackMatchesFlags(r.0)
    decreases |body|
  {
    if body == [] then (s, "")
    else
      var (t, done) := Run(s, body[..|body| - 1]);
      var (u, more) := Step(t, body[|body| - 1]);
      (u, done + more)
  }

  /** The bytes after the last paragraph break (the whole body when there is none). */
  function LastParagraph(body: seq<byte>): (r: seq<byte>)
    ensures 0 !in r
  {
    if body == [] then []
    else if body[|body| - 1] == 0 then []
    else LastParagraph(body[..|body| - 1]) + [body[|body| - 1]]
  }

  /**
    Paragraph-reset rule: after any body, an attribute is on exactly when
    its toggle byte occurs an odd number of times since the last paragraph
    break, however the toggles were nested before it.
   */
  lemma {:induction false} FlagsFollowLastParagraph(body: seq<byte>, a: Attr)
    ensures IsOn(Run(Start, body).0.flags, a) <==> Occurrences(LastParagraph(body), ControlByte(a)) % 2 == 1
    decreases |body|
  {
    if body != [] {
      var init, b := body[..|body| - 1], body[|body| - 1];
      FlagsFollowLastParagraph(init, a);
      assert body == init + [b];
      RunSnoc(Start, init, b);
      LastParagraphSnoc(init, b, ControlByte(a));
      ParityStep(IsOn(Run(Start, init).0.flags, a), Occurrences(LastParagraph(init), ControlByte(a)),
        IsOn(Run(Start, body).0.flags, a), Occurrences(LastParagraph(body), ControlByte(a)));
    }
  }

  /** A flag that tracks the parity of a count keeps tracking it when both reset, both step, or neither moves. */
  lemma ParityStep(on: bool, n: nat, on': bool, n': nat)
    requires on <==> n % 2 == 1
    requires (!on' && n' == 0) || (on' == !on && n' == n + 1) || (on' == on && n' == n)
    ensures on' <==> n' % 2 == 1
  {
  }

  /** A paragraph break empties the last paragraph; any other byte extends it. */
  lemma LastParagraphSnoc(init: seq<byte>, b: byte, x: byte)
    ensures b == 0 ==> Occurrences(LastParagraph(init + [b]), x) == 0
    ensures b != 0 ==>
      Occurrences(LastParagraph(init + [b]), x) == Occurrences(LastParagraph(init), x) + (if b == x then 1 else 0)
  {
    var body := init + [b];
    assert body[..|body| - 1] == init;
    if b != 0 {
      var lp := LastParagraph(init) + [b];
      assert lp[..|lp| - 1] == LastParagraph(init);
    }
  }

  /** All text of a byte sequence, each byte escaped. */
  function Escape(bs: seq<byte>): string
  {
    if bs == [] then "" else EscapeByte(bs[0]) + Escape(bs[1..])
  }

  lemma {:induction false} EscapeAppend(xs: seq<byte>, ys: seq<byte>)
    ensures Escape(xs + ys) == Escape(xs) + Escape(ys)
    decreases |xs|
  {
    if xs == [] {
      assert xs + ys == ys;
    } else {
      assert (xs + ys)[1..] == xs[1..] + ys;
      EscapeAppend(xs[1..], ys);
    }
  }

  /** Without control bytes the state never changes and the text is the escaped body. */
  lemma {:induction false} PlainBodyIsEscaped(s: State, body: seq<byte>)
    requires StackMatchesFlags(s)
    requires NoControls(body)
    ensures Run(s, body) == (s, Escape(body))
    decreases |body|
  {
    if body != [] {
      var init, b := body[..|body| - 1], body[|body| - 1];
      PlainBodyIsEscaped(s, init);
      EscapeAppend(init, [b]);
      assert init + [b] == body;
      assert Escape([b]) == EscapeByte(b) by {
        assert [b][1..] == [];
      }
    }
  }

  function Prepend(b: byte, r: Option<seq<byte>>): Option<seq<byte>>
  {
    match r
    case None => None
    case Some(bs) => Some([b] + bs)
  }

  predicate StartsWith(s: string, prefix: string)
  {
    |prefix| <= |s| && s[..|prefix|] == prefix
  }

  /**
    Reads escaped text back into bytes: an entity is chosen by the letter
    after '&', and any other character is one byte. Fails on anything the
    escaping never produces.
   */
  function Unescape(s: string): Option<seq<byte>>
    decreases |s|
  {
    if s == [] then Some([])
    else if s[0] != '&' then
      if s[0] as int < 256 then Prepend(s[0] as int, Unescape(s[1..])) else None
    else if |s| < 2 then None
    else if s[1] == 'l' then
      if StartsWith(s, "&lt;") then Prepend(60, Unescape(s[4..])) else None
    else if s[1] == 'g' then
      if StartsWith(s, "&gt;") then Prepend(62, Unescape(s[4..])) else None
    else if s[1] == 'a' then
      if StartsWith(s, "&amp;") then Prepend(38, Unescape(s[5..])) else None
    else if s[1] == 'p' then
      if StartsWith(s, "&pound;") then Prepend(96, Unescape(s[7..])) else None
    else if s[1] == 'c' then
      if StartsWith(s, "&copy;") then Prepend(127, Unescape(s[6..])) else None
    else if s[1] == 'n' then
      if StartsWith(s, HardTab) then Prepend(9, Unescape(s[|HardTab|..])) else None
    else None
  }

  lemma UnescapeEscapeByte(b: byte, rest: string)
    ensures Unescape(EscapeByte(b) + rest) == Prepend(b, Unescape(rest))
  {
    var e := EscapeByte(b);
    var s := e + rest;
    assert s[..|e|] == e;
    assert s[|e|..] == rest;
    if b in {9, 38, 60, 62, 96, 127} {
      assert s[0] == '&' && s[1] == e[1];
    } else {
      assert e == [b as char];
      assert s[0] == b as char && s[1..] == rest;
    }
  }

  /** Output is only ever appended: the text of a prefix of the body is a prefix of the text. */
  lemma {:induction false} RunPrefix(s: State, body: seq<byte>, k: nat)
    requires StackMatchesFlags(s)
    requires k <= |body|
    ensures Run(s, body[..k]).1 <= Run(s, body).1
    decreases |body| - k
  {
    if k == |body| {
      assert body[..k] == body;
    } else {
      var init, b := body[..k], body[k];
      assert body[..k + 1] == init + [b];
      RunPrefix(s, body, k + 1);
      RunSnoc(s, init, b);
      var shorter, middle, longer := Run(s, init).1, Run(s, init + [b]).1, Run(s, body).1;
      assert shorter <= middle <= longer;
    }
  }

  /**
    Every byte that is not a control byte is emitted, escaped, right after
    the text of the bytes before it, whatever toggles and paragraph breaks
    the body holds.
   */
  lemma NonControlByteEmitted(s: State, body: seq<byte>, i: nat)
    requires StackMatchesFlags(s)
    requires i < |body| && !IsControl(body[i])
    ensures Run(s, body[..i]).1 + EscapeByte(body[i]) <= Run(s, body).1
  {
    var init, b := body[..i], body[i];
    assert body[..i + 1] == init + [b];
    RunPrefix(s, body, i + 1);
    LastByteEmitted(s, init, b);
    var shorter, longer := Run(s, init + [b]).1, Run(s, body).1;
    assert shorter <= longer;
  }

  /** A last byte that is not a control byte adds exactly its own text. */
  lemma LastByteEmitted(s: State, init: seq<byte>, b: byte)
    requires StackMatchesFlags(s)
    requires !IsControl(b)
    ensures Run(s, init + [b]).1 == Run(s, init).1 + EscapeByte(b)
  {
    RunSnoc(s, init, b);
  }

  /** Escaping loses nothing: the original bytes can be read back from the text. */
  lemma {:induction false} UnescapeEscape(bs: seq<byte>)
    ensures Unescape(Escape(bs)) == Some(bs)
    decreases |bs|
  {
    if bs != [] {
      UnescapeEscapeByte(bs[0], Escape(bs[1..]));
      UnescapeEscape(bs[1..]);
      assert [bs[0]] + bs[1..] == bs;
    }
  }

  /** For a body without control bytes the decoded text reads back as exactly the body. */
  lemma PlainBodyRoundTrip(body: seq<byte>)
    requires NoControls(body)
    ensures Unescape(Run(Start, body).1) == Some(body)
  {
    PlainBodyIsEscaped(Start, body);
    UnescapeEscape(body);
  }

  /** Decimal digits of a number, as QString::arg writes it. */
  function Decimal(n: nat): string
    decreases n
  {
    var digit := ('0' as int + n % 10) as char;
    if n < 10 then [digit] else Decimal(n / 10) + [digit]
  }

  function HeaderLengthMessage(n: nat): string
  {
    "Header block length not equal 20 bytes, actually = " + Decimal(n)
  }

  function MagicMessage(m: seq<byte>): string
  {
    "Header flag bytes not equal 'vrm1qdf0', actually = " + Latin1(m)
  }

  /** A constructed QuillDoc: either rejected with a message, or decoded. */
  datatype QuillDoc =
    | Invalid(errorMessage: string)
    | Valid(textLength: nat, header: string, footer: string, text: string)
  {
    function IsValid(): (r: bool)
      ensures r <==> Valid?
    {
      Valid?
    }

    /** The error message; empty for a decoded document. */
    function GetError(): (r: string)
      ensures Valid? ==> r == ""
      ensures Invalid? ==> r == errorMessage
    {
      if Valid? then "" else errorMessage
    }

    /** The body text; a rejected document never set it, so it is empty. */
    function GetText(): (r: string)
      ensures Invalid? ==> r == ""
      ensures Valid? ==> r == text
    {
      if Valid? then text else ""
    }

    function GetHeader(): (r: string)
      ensures Invalid? ==> r == ""
      ensures Valid? ==> r == header
    {
      if Valid? then header else ""
    }

    function GetFooter(): (r: string)
      ensures Invalid? ==> r == ""
      ensures Valid? ==> r == footer
    {
      if Valid? then footer else ""
    }

    /** The text-end pointer; a rejected document never read it. */
    function GetTextLength(): (r: nat)
      requires Valid?
      ensures r == textLength
    {
      textLength
    }
  }

  /** Bytes 0..9 hold header-block length 20 and the magic. */
  predicate HasQuillHeader(file: seq<byte>)
  {
    10 <= |file| && BigEndian16(file, 0) == ExpectedHeaderLength && HasMagic(file)
  }

  /**
    The header-block length as `in >> fHeaderLength` reads it. A 16-bit read
    that finds fewer than two bytes yields 0 as a whole, not a padded value.
   */
  function HeaderLengthRead(file: seq<byte>): (n: nat)
    ensures 2 <= |file| ==> n == BigEndian16(file, 0)
    ensures |file| < 2 ==> n == 0
  {
    if |file| < 2 then 0 else BigEndian16(file, 0)
  }

  /**
    The QuillDoc constructor over the whole file. The header-block length
    and the magic are read as QDataStream reads them: a length cut short is
    0, and each magic byte past the end of the file is 0. A wrong length or magic gives an invalid document with its
    message and nothing further is read; otherwise the layout is parsed and
    the body decoded. A read past the end after the magic is a failure.
   */
  function Open(file: seq<byte>): (r: Result<QuillDoc, Truncation>)
    ensures HeaderLengthRead(file) != ExpectedHeaderLength ==>
      r == Success(Invalid(HeaderLengthMessage(HeaderLengthRead(file))))
    ensures HeaderLengthRead(file) == ExpectedHeaderLength && StreamMagic(file) != Magic ==>
      r == Success(Invalid(MagicMessage(StreamMagic(file))))
    ensures r.Failure? ==> HasQuillHeader(file)
    ensures r.Success? && r.value.Valid? <==>
      && HasQuillHeader(file)
      && ParseLayout(file).Success?
      && BodyBytes(file, ParseLayout(file).value).Success?
    ensures r.Success? && r.value.Valid? ==>
      var l := ParseLayout(file).value;
      && r.value.textLength == l.textEnd
      && r.value.header == Latin1(l.header)
      && r.value.footer == Latin1(l.footer)
      && r.value.text == Run(Start, BodyBytes(file, l).value).1
  {
    StreamMagicIffHasMagic(file);
    if HeaderLengthRead(file) != ExpectedHeaderLength then
      Success(Invalid(HeaderLengthMessage(HeaderLengthRead(file))))
    else if StreamMagic(file) != Magic then Success(Invalid(MagicMessage(StreamMagic(file))))
    else
      match ParseLayout(file)
      case Failure(e) => Failure(e)
      case Success(l) =>
        match BodyBytes(file, l)
        case Failure(e) => Failure(e)
        case Success(body) =>
          Success(Valid(l.textEnd, Latin1(l.header), Latin1(l.footer), Run(Start, body).1))
  }

  /** A file too short to hold the header block's first ten bytes is rejected with a message, never decoded. */
  lemma ShortFileRejected(file: seq<byte>)
    requires |file| < 10
    ensures Open(file).Success? && Open(file).value.Invalid?
    ensures |file| < 2 ==> Open(file) == Success(Invalid(HeaderLengthMessage(0)))
  {
    StreamMagicIffHasMagic(file);
  }

  /** The getters agree: a document is valid exactly when its error message is empty. */
  lemma ValidIffNoError(file: seq<byte>)
    requires Open(file).Success?
    ensures Open(file).value.IsValid() <==> Open(file).value.GetError() == ""
    ensures !Open(file).value.IsValid() ==>
      Open(file).value.GetText() == "" && Open(file).value.GetHeader() == "" && Open(file).value.GetFooter() == ""
  {
    var d := Open(file).value;
    if d.Invalid? {
      assert |d.errorMessage| > 0;
    }
  }

  /** Run over a body with one more byte is one more Step. */
  lemma RunSnoc(s: State, body: seq<byte>, b: byte)
    requires StackMatchesFlags(s)
    ensures Run(s, body + [b]).0 == Step(Run(s, body).0, b).0
    ensures Run(s, body + [b]).1 == Run(s, body).1 + Step(Run(s, body).0, b).1
  {
    assert (body + [b])[..|body|] == body;
  }

  /** The four steps of the paragraph-reset scenario. */
  lemma ParagraphResetSteps(bold: State)
    requires bold == State(Flip(AllOff, Bold), [Bold], false)
    ensures Step(Start, 15).0 == bold && Step(Start, 15).1 == "<B>"
    ensures Step(bold, 65).0 == bold && Step(bold, 65).1 == "A"
    ensures Step(bold, 0).0 == Start && Step(bold, 0).1 == "</B>" + ParagraphBreak
    ensures Step(Start, 66).0 == Start && Step(Start, 66).1 == "B"
  {
    assert Start.stack + [Bold] == [Bold];
    assert CloseAll([Bold]) == "</B>";
  }

  /**
    The paragraph-reset scenario: bold on, "A", paragraph break, "B" closes
    the bold before the break and leaves "B" plain.
   */
  lemma ParagraphResetExample()
    ensures Run(Start, [15, 65, 0, 66]).0 == Start
    ensures Run(Start, [15, 65, 0, 66]).1 == "<B>" + "A" + ("</B>" + ParagraphBreak) + "B"
  {
    ParagraphClosedExample();
    ParagraphResetSteps(State(Flip(AllOff, Bold), [Bold], false));
    assert [15, 65, 0, 66] == [15, 65, 0] + [66];
    RunSnoc(Start, [15, 65, 0], 66);
  }

  /** The first three bytes of the scenario: the break closes the bold and resets the state. */
  lemma ParagraphClosedExample()
    ensures Run(Start, [15, 65, 0]).0 == Start
    ensures Run(Start, [15, 65, 0]).1 == "<B>" + "A" + ("</B>" + ParagraphBreak)
  {
    BoldOpenedExample();
    ParagraphResetSteps(State(Flip(AllOff, Bold), [Bold], false));
    assert [15, 65, 0] == [15, 65] + [0];
    RunSnoc(Start, [15, 65], 0);
  }

  /** The first half of the scenario: bold on, then "A". */
  lemma BoldOpenedExample()
    ensures Run(Start, [15, 65]).0 == State(Flip(AllOff, Bold), [Bold], false)
    ensures Run(Start, [15, 65]).1 == "<B>" + "A"
  {
    BoldOnExample();
    ParagraphResetSteps(State(Flip(AllOff, Bold), [Bold], false));
    assert [15, 65] == [15] + [65];
    RunSnoc(Start, [15], 65);
  }

  /** The first byte of the scenario opens bold. */
  lemma BoldOnExample()
    ensures Run(Start, [15]).0 == State(Flip(AllOff, Bold), [Bold], false)
    ensures Run(Start, [15]).1 == "<B>"
  {
    ParagraphResetSteps(State(Flip(AllOff, Bold), [Bold], false));
    assert [15] == [] + [15];
    RunSnoc(Start, [], 15);
  }
}
