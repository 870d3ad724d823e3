/**
  What the dissector's cursor does to its state: the reader, the current element's byte
  range, the container stack, and the lines put into the protocol tree.
 */
module DissectorSpec {
  import opened Bytes
  import opened TlvFormat
  import opened ReaderSpec
  import opened Text

  const NO_ITEM := -1

  /** One line of the protocol tree: its text, the bytes it highlights, and whether the text stands alone. */
  datatype Item = Item(text: string, start: int, length: int, standalone: bool)

  /** ContainerContext. */
  datatype Frame = Frame(containerType: int, item: int, elemStart: nat, elemLen: int)

  datatype Dissector = Dissector(
    reader: Reader, baseOffset: nat, elemStart: nat, elemLen: int, lastItem: int, stack: seq<Frame>, items: seq<Item>)

  /** The foreign conversions: string escaping, and "%.17g" of 4- or 8-byte float bits. */
  datatype Format = Format(escape: seq<Byte> -> string, float: (nat, nat) -> string)

  function MarkElemStart(d: Dissector): (Error, Dissector) {
    if GetType(d.reader) != NOT_SPECIFIED then (IncorrectState, d)
    else (NoError, d.(elemStart := d.reader.pos))
  }

  function MarkElemLength(d: Dissector): (Error, Dissector)
    requires d.reader.Valid()
  {
    var (err, copy) := ReaderSpec.Skip(d.reader);
    if err != NoError then (err, d) else (NoError, d.(elemLen := copy.pos - d.elemStart))
  }

  function Next(d: Dissector): (r: (Error, Dissector))
    requires d.reader.Valid()
    ensures Advances(d.reader, r.1.reader)
    ensures r.0 == NoError ==> d.reader.pos < r.1.reader.pos
    ensures r.1.stack == d.stack && r.1.items == d.items && r.1.baseOffset == d.baseOffset
  {
    var (err, r) := ReaderSpec.Skip(d.reader);
    var d1 := d.(lastItem := NO_ITEM, reader := r);
    if err != NoError then (err, d1)
    else
      var (err, d2) := MarkElemStart(d1);
      if err != NoError then (err, d2)
      else
        var (err, r') := ReaderSpec.Next(d2.reader);
        if err != NoError then (err, d2.(reader := r')) else MarkElemLength(d2.(reader := r'))
  }

  function PushContainer(d: Dissector, containerType: int): Dissector {
    d.(stack := d.stack + [Frame(containerType, d.lastItem, d.elemStart, d.elemLen)])
  }

  function PopContainer(d: Dissector): (int, Dissector) {
    if d.stack == [] then (NOT_SPECIFIED, d)
    else
      var top := d.stack[|d.stack| - 1];
      (top.containerType,
       d.(stack := d.stack[..|d.stack| - 1], lastItem := top.item, elemStart := top.elemStart, elemLen := top.elemLen))
  }

  /** What was pushed last is restored, whatever has become of the rest of the state. */
  lemma PopUndoesPush(d: Dissector, containerType: int, after: Dissector)
    requires after.stack == PushContainer(d, containerType).stack
    ensures PopContainer(after) ==
            (containerType, after.(stack := d.stack, lastItem := d.lastItem, elemStart := d.elemStart,
                                   elemLen := d.elemLen))
  {
  }

  function EnterContainer(d: Dissector): (r: (Error, Dissector))
    requires d.reader.Valid()
    ensures Advances(d.reader, r.1.reader) && r.1.reader.pos == d.reader.pos
  {
    var (err, r, outer) := ReaderSpec.EnterContainer(d.reader);
    if err != NoError then (err, d) else (NoError, PushContainer(d.(reader := r), outer))
  }

  function ExitContainer(d: Dissector): (r: (Error, Dissector))
    requires d.reader.Valid()
    ensures Advances(d.reader, r.1.reader)
  {
    var (outer, d') := PopContainer(d);
    var (err, r) := ReaderSpec.ExitContainer(d.reader, outer);
    (err, d'.(reader := r))
  }

  // ---- AddGenericTLVItem ----

  /** The "tag = " prefix. For a profile tag the number is missing: the format has no conversion for it. */
  function TagLabel(tag: nat): (s: string)
    ensures NulFree(s)
  {
    if IsContextTag(tag) then Decimal(tag % 0x1_0000_0000) + " = "
    else if IsProfileTag(tag) then Hex((tag / 0x1_0000_0000) % 0x1_0000_0000, 8, 'A') + ":d = "
    else ""
  }

  /** "%.17g", with ".0" behind a number that looks like an integer. */
  function FloatText(number: string): (s: string)
    ensures NulFree(s)
  {
    var s := CStr(number);
    if '.' in s || 'e' in s || 'E' in s then s else s + ".0"
  }

  /** A printed float has a point or an exponent, and is the number as converted if that has one. */
  lemma FloatLooksFloat(number: string)
    ensures FloatText(number) == CStr(number) || FloatText(number) == CStr(number) + ".0"
    ensures FloatText(number) == CStr(number) <==> exists c :: c in CStr(number) && c in {'.', 'e', 'E'}
  {
  }

  /** The text of the current element's value, and the reader after taking it. */
  function ValueText(s: Reader, fmt: Format): (r: (Error, string, Reader))
    requires s.Valid()
    ensures Advances(s, r.2) && NulFree(r.1)
  {
    var t := GetType(s);
    if t == 0x00 then (NoError, Decimal(GetI64(s).1), s)
    else if t == 0x04 then (NoError, Decimal(GetU64(s).1), s)
    else if t == 0x08 then (NoError, if GetBool(s).1 then "true" else "false", s)
    else if t == 0x0A then (NoError, FloatText(fmt.float(FieldBytes(s.ElementType()), s.lenOrVal)), s)
    else if t == 0x0C then
      var (err, data, u) := DupString(s);
      (err, if err == NoError then CStr(fmt.escape(data)) else "", u)
    else if t == 0x10 then
      var (err, data) := GetDataPtr(s);
      (err, if err == NoError then HexDump(data) else "", s)
    else if t == 0x14 then (NoError, "null", s)
    else if t == STRUCTURE then (NoError, "{", s)
    else if t == ARRAY then (NoError, "[", s)
    else if t == PATH then (NoError, "<", s)
    else (UnexpectedTlvElement, "", s)
  }

  function CloseChar(containerType: int): (s: string)
    ensures NulFree(s)
  {
    if containerType == STRUCTURE then "}" else if containerType == ARRAY then "]" else ">"
  }

  /** AddStringItemF (after the field's name) or AddStringItemWithHeaderF (standing alone). */
  function AddString(d: Dissector, text: string, standalone: bool): Dissector {
    d.(lastItem := |d.items|,
       items := d.items + [Item(text, d.elemStart + d.baseOffset, d.elemLen, standalone)])
  }

  /** Indentation and tag, in front of the value. */
  function Prefix(tag: nat, suppressTag: bool, suppressHeader: bool, indent: nat): (s: string)
    ensures NulFree(s)
  {
    (if suppressHeader then Repeat("    ", indent) else "") + (if suppressTag then "" else TagLabel(tag))
  }

  /** Whether anything is appended to the text buffer of a line, which stays null otherwise. */
  predicate HasText(s: Reader, suppressTag: bool, suppressHeader: bool, indent: nat) {
    GetType(s) == 0x10 && GetLength(s) == 0 ==> Prefix(s.tag, suppressTag, suppressHeader, indent) != ""
  }

  /** The first line of an element. Emptying the buffer afterwards writes into it, null or not. */
  function AddLine(d: Dissector, fmt: Format, suppressTag: bool, suppressHeader: bool, indent: nat)
    : (r: (Error, Dissector))
    requires d.reader.Valid()
    ensures Advances(d.reader, r.1.reader)
  {
    var (err, text, r) := ValueText(d.reader, fmt);
    var d' := d.(reader := r);
    if err != NoError then (err, d')
    else if !HasText(d.reader, suppressTag, suppressHeader, indent) then (NullBuffer, d')
    else (NoError, AddString(d', Prefix(d.reader.tag, suppressTag, suppressHeader, indent) + text, suppressHeader))
  }

  function AddGenericItem(d: Dissector, fmt: Format, suppressTag: bool, suppressHeader: bool, indent: nat)
    : (r: (Error, Dissector))
    requires d.reader.Valid()
    ensures Advances(d.reader, r.1.reader)
    decreases |d.reader.input| - d.reader.pos, 2
  {
    var containerType := GetType(d.reader);
    var (err, d') := AddLine(d, fmt, suppressTag, suppressHeader, indent);
    if err == NoError && IsContainerType(containerType) then AddContainerBody(d', fmt, indent, containerType)
    else (err, d')
  }

  /** The members of a container, and its closing line. */
  function AddContainerBody(d: Dissector, fmt: Format, indent: nat, containerType: int): (r: (Error, Dissector))
    requires d.reader.Valid()
    ensures Advances(d.reader, r.1.reader)
    decreases |d.reader.input| - d.reader.pos, 1
  {
    var (err, d3) := EnterContainer(d);
    if err != NoError then (err, d3)
    else
      var (err, d4) := AddMemberItems(d3, fmt, indent);
      if err != NoError then (err, d4)
      else
        var (err, d5) := ExitContainer(d4);
        if err != NoError then (err, d5)
        else (NoError, AddString(d5, Repeat("    ", indent) + CloseChar(containerType), true))
  }

  /** The loop over a container's members. */
  function AddMemberItems(d: Dissector, fmt: Format, indent: nat): (r: (Error, Dissector))
    requires d.reader.Valid()
    ensures Advances(d.reader, r.1.reader)
    decreases |d.reader.input| - d.reader.pos, 0
  {
    var (err, d1) := Next(d);
    if err == EndOfTlv then (NoError, d1)
    else if err != NoError then (err, d1)
    else
      var (err, d2) := AddGenericItem(d1, fmt, false, true, indent + 1);
      if err != NoError then (err, d2) else AddMemberItems(d2, fmt, indent)
  }
}
