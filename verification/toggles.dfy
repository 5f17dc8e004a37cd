/**
  The style-toggle machine both Qt decoders run over the body, and the
  control bytes and markup they share.

  Control bytes 15..18 toggle bold, underline, subscript and superscript.
  Each attribute has an "on" flag; turning one on pushes it on a stack of
  open tags and emits the opening tag, turning it off pops the stack and
  emits the closing tag, followed by an error marker when the popped entry
  is a different attribute. The source pushes the integer codes
  1, 2, 4 and 8; the model pushes the attribute itself.
 */
module Toggles {
  import opened Results
  import opened QuillFormat

  /** Body bytes the decoders consume without emitting their own text:
      paragraph break 0, form feed 12, the toggles 15..18 and soft hyphen 30. */
  predicate IsControl(b: byte)
  {
    b == 0 || b == 12 || 15 <= b <= 18 || b == 30
  }

  /** A body without paragraph breaks, toggles, form feeds or soft hyphens. */
  predicate NoControls(body: seq<byte>)
  {
    forall i :: 0 <= i < |body| ==> !IsControl(body[i])
  }

  /** Emitted for a paragraph break (in quill.cpp after the open tags are closed). */
  const ParagraphBreak: string := "</P>\n<P>"

  /** The four character attributes Quill toggles. */
  datatype Attr = Bold | Under | Subscript | Superscript

  /** The control byte that toggles an attribute. */
  function ControlByte(a: Attr): byte
  {
    match a
    case Bold => 15
    case Under => 16
    case Subscript => 17
    case Superscript => 18
  }

  /** The attribute a body byte toggles, if it is one of the four toggle codes. */
  function ToggleOf(b: byte): (r: Option<Attr>)
    ensures r.Some? <==> 15 <= b <= 18
    ensures r.Some? ==> ControlByte(r.value) == b
    ensures forall a :: ControlByte(a) == b ==> r == Some(a)
  {
    if b == 15 then Some(Bold)
    else if b == 16 then Some(Under)
    else if b == 17 then Some(Subscript)
    else if b == 18 then Some(Superscript)
    else None
  }

  /** The four flags BoldOn, UnderOn, SubOn and SuperOn. */
  datatype Flags = Flags(boldOn: bool, underOn: bool, subOn: bool, superOn: bool)

  const AllOff: Flags := Flags(false, false, false, false)

  function IsOn(f: Flags, a: Attr): bool
  {
    match a
    case Bold => f.boldOn
    case Under => f.underOn
    case Subscript => f.subOn
    case Superscript => f.superOn
  }

  /** The number of attributes that are on. */
  function OnCount(f: Flags): nat
  {
    (if f.boldOn then 1 else 0) + (if f.underOn then 1 else 0)
    + (if f.subOn then 1 else 0) + (if f.superOn then 1 else 0)
  }

  /** Negates one flag. */
  function Flip(f: Flags, a: Attr): (g: Flags)
    ensures IsOn(g, a) == !IsOn(f, a)
    ensures forall b :: b != a ==> IsOn(g, b) == IsOn(f, b)
    ensures OnCount(g) == if IsOn(f, a) then OnCount(f) - 1 else OnCount(f) + 1
  {
    match a
    case Bold => f.(boldOn := !f.boldOn)
    case Under => f.(underOn := !f.underOn)
    case Subscript => f.(subOn := !f.subOn)
    case Superscript => f.(superOn := !f.superOn)
  }

  /** Decoder state: the flags, the stack of open tags (top last) and the out-of-sequence flag. */
  datatype State = State(flags: Flags, stack: seq<Attr>, formatError: bool)

  /** The state before the first body byte. */
  const Start: State := State(AllOff, [], false)

  /** The stack holds one entry per attribute that is on, so popping it on "off" never fails. */
  predicate StackMatchesFlags(s: State)
  {
    |s.stack| == OnCount(s.flags)
  }

  function Top(stack: seq<Attr>): Attr
    requires |stack| > 0
  {
    stack[|stack| - 1]
  }

  function Pop(stack: seq<Attr>): seq<Attr>
    requires |stack| > 0
  {
    stack[..|stack| - 1]
  }

  function OpenTag(a: Attr): string
  {
    match a
    case Bold => "<B>"
    case Under => "<U>"
    case Subscript => "<SUB>"
    case Superscript => "<SUP>"
  }

  function CloseTag(a: Attr): string
  {
    match a
    case Bold => "</B>"
    case Under => "</U>"
    case Subscript => "</SUB>"
    case Superscript => "</SUP>"
  }

  /** The marker appended after a closing tag whose stack entry was another attribute. */
  function OutOfSequence(a: Attr): string
  {
    match a
    case Bold => "**** ERROR BOLD OFF OUT OF SEQUENCE *****"
    case Under => "**** ERROR UNDERLINE OFF OUT OF SEQUENCE *****"
    case Subscript => "**** ERROR SUBSCRIPT OFF OUT OF SEQUENCE *****"
    case Superscript => "**** ERROR SUPERSCRIPT OFF OUT OF SEQUENCE *****"
  }

  /**
    One toggle byte. When the attribute is off it is pushed and opened;
    when it is on the stack is popped (never empty, by StackMatchesFlags)
    and the attribute is closed, with the marker and the error flag when the
    popped entry differs. Either way the flag is negated and the control
    byte itself is not emitted.
   */
  function Toggle(s: State, a: Attr): (r: (State, string))
    requires StackMatchesFlags(s)
    ensures StackMatchesFlags(r.0)
    ensures r.0.flags == Flip(s.flags, a)
    ensures !IsOn(s.flags, a) ==>
      r.0.stack == s.stack + [a] && r.1 == OpenTag(a) && r.0.formatError == s.formatError
    ensures IsOn(s.flags, a) ==>
      && |s.stack| > 0
      && r.0.stack == s.stack[..|s.stack| - 1]
      && (r.0.formatError <==> s.formatError || s.stack[|s.stack| - 1] != a)
      && r.1 == CloseTag(a) + (if s.stack[|s.stack| - 1] == a then "" else OutOfSequence(a))
  {
    if IsOn(s.flags, a) then
      if Top(s.stack) != a then
        (State(Flip(s.flags, a), Pop(s.stack), true), CloseTag(a) + OutOfSequence(a))
      else
        (State(Flip(s.flags, a), Pop(s.stack), s.formatError), CloseTag(a))
    else
      (State(Flip(s.flags, a), s.stack + [a], s.formatError), OpenTag(a))
  }

  /**
    The same toggle twice in a row restores the flags. It restores the whole
    state when the attribute was off or was on top of the stack; otherwise
    the old top is replaced by the attribute and the error flag is raised.
   */
  lemma ToggleTwice(s: State, a: Attr)
    requires StackMatchesFlags(s)
    ensures var (t, o1) := Toggle(s, a);
      && Toggle(t, a).0.flags == s.flags
      && (!IsOn(s.flags, a) ==> Toggle(t, a).0 == s && o1 + Toggle(t, a).1 == OpenTag(a) + CloseTag(a))
      && (IsOn(s.flags, a) && Top(s.stack) == a ==>
            Toggle(t, a).0 == s && o1 + Toggle(t, a).1 == CloseTag(a) + OpenTag(a))
      && (IsOn(s.flags, a) && Top(s.stack) != a ==>
            Toggle(t, a).0 == State(s.flags, Pop(s.stack) + [a], true))
  {
    if !IsOn(s.flags, a) {
      OpenThenClose(s, a);
    } else if Top(s.stack) == a {
      CloseThenOpen(s, a);
    } else {
      MismatchThenOpen(s, a);
    }
  }

  /** Opening and closing an attribute restores the state. */
  lemma OpenThenClose(s: State, a: Attr)
    requires StackMatchesFlags(s) && !IsOn(s.flags, a)
    ensures var (t, o1) := Toggle(s, a);
      Toggle(t, a).0 == s && o1 + Toggle(t, a).1 == OpenTag(a) + CloseTag(a)
  {
    var t := Toggle(s, a).0;
    assert t == State(Flip(s.flags, a), s.stack + [a], s.formatError);
    assert Top(t.stack) == a && Pop(t.stack) == s.stack;
    assert Flip(Flip(s.flags, a), a) == s.flags;
  }

  /** Closing the attribute on top of the stack and opening it again restores the state. */
  lemma CloseThenOpen(s: State, a: Attr)
    requires StackMatchesFlags(s) && IsOn(s.flags, a) && Top(s.stack) == a
    ensures var (t, o1) := Toggle(s, a);
      Toggle(t, a).0 == s && o1 + Toggle(t, a).1 == CloseTag(a) + OpenTag(a)
  {
    var t := Toggle(s, a).0;
    assert t == State(Flip(s.flags, a), Pop(s.stack), s.formatError);
    assert Pop(s.stack) + [a] == s.stack;
    assert Flip(Flip(s.flags, a), a) == s.flags;
  }

  /** Closing an attribute that is not on top replaces the top by it and raises the error flag. */
  lemma MismatchThenOpen(s: State, a: Attr)
    requires StackMatchesFlags(s) && IsOn(s.flags, a) && Top(s.stack) != a
    ensures var t := Toggle(s, a).0;
      Toggle(t, a).0 == State(s.flags, Pop(s.stack) + [a], true)
  {
    var t := Toggle(s, a).0;
    assert t == State(Flip(s.flags, a), Pop(s.stack), true);
    assert !IsOn(t.flags, a);
    assert Toggle(t, a).0 == State(Flip(t.flags, a), t.stack + [a], t.formatError);
    assert Flip(Flip(s.flags, a), a) == s.flags;
  }
}
