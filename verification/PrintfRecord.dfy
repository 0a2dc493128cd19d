/**
 The binary layout of printf-style records: the format string, a word with the size of the arguments, and the
 arguments packed one behind the other. Collecting by the same conversions gives back what was packed.
 */
module PrintfRecord {
  import opened Options
  import opened Bytes

  const SIZEOF_INT: nat := 4
  const SIZEOF_WCHAR: nat := 4

  /** The type of value that a conversion converts; the scalar types differ in their size here. */
  datatype BaseType = NoType | ScalarType(size: nat) | StringType | WstringType

  datatype Conversion = Conversion(isArray: bool, base: BaseType)

  /** A segment of a parsed format. */
  datatype Segment = StringSegment(text: seq<byte>) | ConversionSegment(conv: Conversion)

  /** A scalar is its bytes in memory, a wide string its characters. */
  datatype Element = Scalar(bytes: seq<byte>) | Str(chars: seq<byte>) | Wstr(wchars: seq<nat>)

  datatype Arg = Single(elem: Element) | Array(elems: seq<Element>, delim: seq<byte>)

  // ---------------------------------------------------------------------------------------------------------
  // What may be packed

  predicate NullFree(s: seq<nat>) {
    forall i :: 0 <= i < |s| ==> s[i] != 0
  }

  predicate ElementFits(e: Element, base: BaseType) {
    match base
    case NoType => false
    case ScalarType(size) => e.Scalar? && 0 < size == |e.bytes|
    case StringType => e.Str? && NullFree(e.chars)
    case WstringType =>
      e.Wstr? && NullFree(e.wchars) && forall i :: 0 <= i < |e.wchars| ==> e.wchars[i] < WordValues(SIZEOF_WCHAR)
  }

  predicate ArgFits(a: Arg, conv: Conversion) {
    if conv.isArray then
      a.Array? && |a.elems| < WordValues(SIZEOF_INT) / 2 && NullFree(a.delim)
      && forall i :: 0 <= i < |a.elems| ==> ElementFits(a.elems[i], conv.base)
    else a.Single? && ElementFits(a.elem, conv.base)
  }

  predicate ArgsFit(args: seq<Arg>, convs: seq<Conversion>) {
    |args| == |convs| && forall i :: 0 <= i < |args| ==> ArgFits(args[i], convs[i])
  }

  // ---------------------------------------------------------------------------------------------------------
  // Packing

  function WideBytes(ws: seq<nat>): seq<byte> {
    if ws == [] then ToBytes(SIZEOF_WCHAR, 0) else ToBytes(SIZEOF_WCHAR, ws[0]) + WideBytes(ws[1..])
  }

  function PackedElement(e: Element): seq<byte> {
    match e
    case Scalar(bytes) => bytes
    case Str(chars) => chars + [0]
    case Wstr(wchars) => WideBytes(wchars)
  }

  function PackedElements(es: seq<Element>): seq<byte> {
    if es == [] then [] else PackedElement(es[0]) + PackedElements(es[1..])
  }

  function PackedArg(a: Arg): seq<byte> {
    match a
    case Single(e) => PackedElement(e)
    case Array(es, delim) => ToBytes(SIZEOF_INT, |es|) + (delim + [0]) + PackedElements(es)
  }

  function PackedArgs(args: seq<Arg>): seq<byte> {
    if args == [] then [] else PackedArg(args[0]) + PackedArgs(args[1..])
  }

  function Packed(format: seq<byte>, args: seq<Arg>): seq<byte> {
    (format + [0]) + ToBytes(SIZEOF_INT, |PackedArgs(args)|) + PackedArgs(args)
  }

  // ---------------------------------------------------------------------------------------------------------
  // Collecting

  datatype Collected<T> = Collected(ok: bool, next: nat, value: seq<T>)

  function CollectBytes(data: seq<byte>, next: nat, n: nat): Collected<byte>
    requires next <= |data|
  {
    if |data| - next < n then Collected(false, |data|, []) else Collected(true, next + n, data[next..next + n])
  }

  /** The first null from next on, or the end. */
  function FindNull(data: seq<byte>, next: nat): (r: nat)
    requires next <= |data|
    ensures next <= r <= |data| && (r < |data| ==> data[r] == 0)
    ensures forall i :: next <= i < r ==> data[i] != 0
    decreases |data| - next
  {
    if next == |data| || data[next] == 0 then next else FindNull(data, next + 1)
  }

  function CollectString(data: seq<byte>, next: nat): (r: Collected<byte>)
    requires next <= |data|
    ensures next <= r.next <= |data|
  {
    var z := FindNull(data, next);
    if z < |data| then Collected(true, z + 1, data[next..z]) else Collected(false, |data|, [])
  }

  function CollectWstring(data: seq<byte>, next: nat): (r: Collected<nat>)
    requires next <= |data|
    ensures next <= r.next <= |data|
    decreases |data| - next
  {
    var c := CollectBytes(data, next, SIZEOF_WCHAR);
    if !c.ok then Collected(false, |data|, [])
    else
      var wc := FromBytes(c.value);
      if wc == 0 then Collected(true, c.next, [])
      else
        var rest := CollectWstring(data, c.next);
        Collected(rest.ok, rest.next, if rest.ok then [wc] + rest.value else [])
  }

  /** What is handed to the text formatter, in order. */
  datatype Piece = Text(text: seq<byte>) | Value(elem: Element)

  datatype Outcome = Success | Badmsg | Inval | Msgsize

  /** early: the record ended before a value was complete. */
  datatype Formatted = Formatted(status: Outcome, next: nat, out: seq<Piece>, early: bool)

  datatype ElementRead = ElementRead(status: Outcome, next: nat, elem: Option<Element>)

  function ReadElement(data: seq<byte>, next: nat, base: BaseType): (r: ElementRead)
    requires next <= |data|
    ensures next <= r.next <= |data| && (r.elem.Some? ==> r.status.Success?)
  {
    match base
    case NoType => ElementRead(Badmsg, next, None)
    case ScalarType(size) =>
      var c := CollectBytes(data, next, size);
      ElementRead(Success, c.next, if c.ok then Some(Scalar(c.value)) else None)
    case StringType =>
      var c := CollectString(data, next);
      ElementRead(Success, c.next, if c.ok then Some(Str(c.value)) else None)
    case WstringType =>
      var c := CollectWstring(data, next);
      ElementRead(Success, c.next, if c.ok then Some(Wstr(c.value)) else None)
  }

  function Before(i: nat, delim: seq<byte>): seq<Piece> {
    if i > 0 then [Text(delim)] else []
  }

  /** Elements i to dim, with the delimiter between them, until the record ends. */
  function FormatElements(data: seq<byte>, next: nat, base: BaseType, delim: seq<byte>, i: nat,
      dim: nat): (r: Formatted)
    requires next <= |data| && i <= dim
    ensures next <= r.next <= |data|
    decreases dim - i
  {
    if i == dim then Formatted(Success, next, [], false)
    else
      var e := ReadElement(data, next, base);
      if e.elem.None? then Formatted(e.status, e.next, Before(i, delim), e.status.Success?)
      else
        var rest := FormatElements(data, e.next, base, delim, i + 1, dim);
        rest.(out := Before(i, delim) + [Value(e.elem.value)] + rest.out)
  }

  /** A dimension is a signed word, and none of a negative number of elements. */
  function Dimension(word: nat): nat {
    if word < WordValues(SIZEOF_INT) / 2 then word else 0
  }

  function FormatConversion(data: seq<byte>, next: nat, conv: Conversion): (r: Formatted)
    requires next <= |data|
    ensures next <= r.next <= |data|
  {
    if !conv.isArray then FormatElements(data, next, conv.base, [], 0, 1)
    else
      var d := CollectBytes(data, next, SIZEOF_INT);
      if !d.ok then Formatted(Success, d.next, [], true)
      else
        var s := CollectString(data, d.next);
        if !s.ok then Formatted(Success, s.next, [], true)
        else FormatElements(data, s.next, conv.base, s.value, 0, Dimension(FromBytes(d.value)))
  }

  /** Segment by segment; once the data are used up only the string segments are left. */
  function FormatSegments(data: seq<byte>, next: nat, segs: seq<Segment>): Formatted
    decreases |segs|
  {
    if segs == [] then Formatted(Success, next, [], false)
    else
      match segs[0]
      case StringSegment(text) =>
        var rest := FormatSegments(data, next, segs[1..]);
        rest.(out := [Text(text)] + rest.out)
      case ConversionSegment(conv) =>
        if next >= |data| then FormatSegments(data, next, segs[1..]).(early := true)
        else
          var f := FormatConversion(data, next, conv);
          if f.status != Success then f
          else
            var rest := FormatSegments(data, f.next, segs[1..]);
            rest.(out := f.out + rest.out, early := f.early || rest.early)
  }

  /** The parser of format strings; None for one with a conversion that is not understood. */
  type Parser = seq<byte> -> Option<seq<Segment>>

  function FormatRecord(data: seq<byte>, parse: Parser): Formatted {
    if data == [] then Formatted(Inval, 0, [], false)
    else
      var format := CollectString(data, 0);
      if !format.ok then Formatted(Badmsg, format.next, [], false)
      else
        var segs := parse(format.value);
        if segs.None? then Formatted(Badmsg, format.next, [], false)
        else FormatSegments(data, format.next + SIZEOF_INT, segs.value)
  }

  // ---------------------------------------------------------------------------------------------------------
  // What formatting a record should hand to the text formatter

  function Conversions(segs: seq<Segment>): seq<Conversion> {
    if segs == [] then []
    else (if segs[0].ConversionSegment? then [segs[0].conv] else []) + Conversions(segs[1..])
  }

  function ElementPieces(es: seq<Element>, delim: seq<byte>, i: nat): seq<Piece>
    requires i <= |es|
    decreases |es| - i
  {
    if i == |es| then [] else Before(i, delim) + [Value(es[i])] + ElementPieces(es, delim, i + 1)
  }

  function ArgPieces(a: Arg): seq<Piece> {
    match a
    case Single(e) => [Value(e)]
    case Array(es, delim) => ElementPieces(es, delim, 0)
  }

  function Pieces(segs: seq<Segment>, args: seq<Arg>): seq<Piece>
    requires |args| == |Conversions(segs)|
  {
    if segs == [] then []
    else
      match segs[0]
      case StringSegment(text) => [Text(text)] + Pieces(segs[1..], args)
      case ConversionSegment(_) => ArgPieces(args[0]) + Pieces(segs[1..], args[1..])
  }

  // ---------------------------------------------------------------------------------------------------------
  // Round trip

  /** b stands in data at next. */
  predicate At(data: seq<byte>, next: nat, b: seq<byte>) {
    next + |b| <= |data| && data[next..next + |b|] == b
  }

  lemma {:induction false} AtSplit(data: seq<byte>, next: nat, a: seq<byte>, b: seq<byte>)
    ensures At(data, next, a + b) <==> At(data, next, a) && At(data, next + |a|, b)
  {
    if next + |a| + |b| <= |data| {
      var x := data[next..next + |a + b|];
      assert x[..|a|] == data[next..next + |a|] && x[|a|..] == data[next + |a|..next + |a| + |b|];
      assert x == x[..|a|] + x[|a|..];
      assert x == a + b ==> x[..|a|] == a && x[|a|..] == b;
    }
  }

  lemma {:induction false} StringCollected(data: seq<byte>, next: nat, s: seq<byte>)
    requires NullFree(s) && At(data, next, s + [0])
    ensures CollectString(data, next) == Collected(true, next + |s| + 1, s)
  {
    AtSplit(data, next, s, [0]);
    assert data[next + |s|] == data[next + |s|..next + |s| + 1][0];
    forall i | next <= i < next + |s| ensures data[i] != 0 {
      assert data[i] == data[next..next + |s|][i - next];
    }
    assert FindNull(data, next) == next + |s|;
  }

  lemma {:induction false} WstringCollected(data: seq<byte>, next: nat, ws: seq<nat>)
    requires NullFree(ws) && (forall i :: 0 <= i < |ws| ==> ws[i] < WordValues(SIZEOF_WCHAR))
    requires At(data, next, WideBytes(ws))
    ensures CollectWstring(data, next) == Collected(true, next + |WideBytes(ws)|, ws)
    decreases |ws|
  {
    if ws == [] {
      FromToBytes(SIZEOF_WCHAR, 0);
    } else {
      var word := ToBytes(SIZEOF_WCHAR, ws[0]);
      FromToBytes(SIZEOF_WCHAR, ws[0]);
      AtSplit(data, next, word, WideBytes(ws[1..]));
      WstringCollected(data, next + SIZEOF_WCHAR, ws[1..]);
      assert ws == [ws[0]] + ws[1..];
    }
  }

  lemma {:induction false} ElementRoundTrip(data: seq<byte>, next: nat, e: Element, base: BaseType)
    requires ElementFits(e, base) && At(data, next, PackedElement(e))
    ensures ReadElement(data, next, base) == ElementRead(Success, next + |PackedElement(e)|, Some(e))
  {
    match e
    case Scalar(_) =>
    case Str(chars) => StringCollected(data, next, chars);
    case Wstr(wchars) => WstringCollected(data, next, wchars);
  }

  lemma {:induction false} ElementsRoundTrip(data: seq<byte>, next: nat, es: seq<Element>, base: BaseType,
      delim: seq<byte>, i: nat)
    requires i <= |es| && (forall k :: i <= k < |es| ==> ElementFits(es[k], base))
    requires At(data, next, PackedElements(es[i..]))
    ensures FormatElements(data, next, base, delim, i, |es|)
         == Formatted(Success, next + |PackedElements(es[i..])|, ElementPieces(es, delim, i), false)
    decreases |es| - i
  {
    hide At, ReadElement, PackedElement, ElementFits;
    if i < |es| {
      assert es[i..][0] == es[i] && es[i..][1..] == es[i + 1..];
      AtSplit(data, next, PackedElement(es[i]), PackedElements(es[i + 1..]));
      ElementRoundTrip(data, next, es[i], base);
      ElementsRoundTrip(data, next + |PackedElement(es[i])|, es, base, delim, i + 1);
    }
  }

  lemma {:induction false} ArrayParts(data: seq<byte>, next: nat, es: seq<Element>, delim: seq<byte>, dim: seq<byte>)
    requires dim == ToBytes(SIZEOF_INT, |es|) && At(data, next, PackedArg(Array(es, delim)))
    ensures At(data, next, dim) && At(data, next + SIZEOF_INT, delim + [0])
    ensures At(data, next + SIZEOF_INT + |delim| + 1, PackedElements(es))
  {
    hide At, ToBytes;
    ThreeParts(data, next, dim, delim + [0], PackedElements(es));
  }

  lemma {:induction false} ThreeParts(data: seq<byte>, next: nat, a: seq<byte>, b: seq<byte>, c: seq<byte>)
    requires At(data, next, a + b + c)
    ensures At(data, next, a) && At(data, next + |a|, b) && At(data, next + |a| + |b|, c)
  {
    hide At;
    AtSplit(data, next, a + b, c);
    AtSplit(data, next, a, b);
  }

  lemma {:induction false} ArrayRoundTrip(data: seq<byte>, next: nat, es: seq<Element>, delim: seq<byte>,
      base: BaseType)
    requires ArgFits(Array(es, delim), Conversion(true, base)) && At(data, next, PackedArg(Array(es, delim)))
    ensures FormatConversion(data, next, Conversion(true, base))
         == Formatted(Success, next + |PackedArg(Array(es, delim))|, ElementPieces(es, delim, 0), false)
  {
    hide At, FormatElements, PackedElements, ToBytes, FromBytes, CollectString;
    ArrayParts(data, next, es, delim, ToBytes(SIZEOF_INT, |es|));
    WordCollected(data, next, |es|);
    StringCollected(data, next + SIZEOF_INT, delim);
    assert es[0..] == es;
    ElementsRoundTrip(data, next + SIZEOF_INT + |delim| + 1, es, base, delim, 0);
  }

  lemma {:induction false} WordCollected(data: seq<byte>, next: nat, v: nat)
    requires v < WordValues(SIZEOF_INT) && At(data, next, ToBytes(SIZEOF_INT, v))
    ensures next + SIZEOF_INT <= |data|
    ensures var c := CollectBytes(data, next, SIZEOF_INT);
      c.ok && c.next == next + SIZEOF_INT && FromBytes(c.value) == v
  {
    FromToBytes(SIZEOF_INT, v);
  }

  lemma {:induction false} ArgRoundTrip(data: seq<byte>, next: nat, a: Arg, conv: Conversion)
    requires ArgFits(a, conv) && At(data, next, PackedArg(a))
    ensures FormatConversion(data, next, conv) == Formatted(Success, next + |PackedArg(a)|, ArgPieces(a), false)
  {
    match a
    case Single(e) =>
      ElementRoundTrip(data, next, e, conv.base);
      assert FormatElements(data, next + |PackedElement(e)|, conv.base, [], 1, 1).out == [];
    case Array(es, delim) => ArrayRoundTrip(data, next, es, delim, conv.base);
  }

  lemma {:induction false} ArgTakesRoom(a: Arg, conv: Conversion)
    requires ArgFits(a, conv)
    ensures 0 < |PackedArg(a)|
  {
    if a.Single? && a.elem.Wstr? && a.elem.wchars != [] {
      assert |PackedElement(a.elem)| >= SIZEOF_WCHAR;
    }
  }

  lemma {:induction false} SegmentsRoundTrip(data: seq<byte>, next: nat, segs: seq<Segment>, args: seq<Arg>)
    requires ArgsFit(args, Conversions(segs)) && At(data, next, PackedArgs(args))
    ensures FormatSegments(data, next, segs) == Formatted(Success, next + |PackedArgs(args)|, Pieces(segs, args), false)
    decreases |segs|
  {
    hide At, FormatConversion, PackedArg, ArgFits, ArgPieces;
    if segs != [] {
      match segs[0]
      case StringSegment(_) =>
        assert Conversions(segs) == Conversions(segs[1..]);
        SegmentsRoundTrip(data, next, segs[1..], args);
      case ConversionSegment(conv) =>
        var convs := Conversions(segs);
        assert convs == [conv] + Conversions(segs[1..]) && convs[1..] == Conversions(segs[1..]);
        AtSplit(data, next, PackedArg(args[0]), PackedArgs(args[1..]));
        ArgTakesRoom(args[0], conv);
        ArgRoundTrip(data, next, args[0], conv);
        assert forall i :: 0 <= i < |args[1..]| ==> args[1..][i] == args[i + 1] && convs[1..][i] == convs[i + 1];
        SegmentsRoundTrip(data, next + |PackedArg(args[0])|, segs[1..], args[1..]);
    }
  }

  /**
   A packed record formats to the values that were packed, in the places its format gives them; the record is used
   up and never ends early.
   */
  lemma {:induction false} RecordRoundTrip(format: seq<byte>, segs: seq<Segment>, args: seq<Arg>, parse: Parser)
    requires NullFree(format) && parse(format) == Some(segs) && ArgsFit(args, Conversions(segs))
    ensures var data := Packed(format, args);
      FormatRecord(data, parse) == Formatted(Success, |data|, Pieces(segs, args), false)
  {
    hide CollectString, FormatSegments, PackedArgs, ToBytes, FromBytes, Pieces, ArgsFit;
    var data, size := Packed(format, args), ToBytes(SIZEOF_INT, |PackedArgs(args)|);
    assert data[0..|data|] == data;
    AtSplit(data, 0, (format + [0]) + size, PackedArgs(args));
    AtSplit(data, 0, format + [0], size);
    StringCollected(data, 0, format);
    SegmentsRoundTrip(data, |format| + 1 + SIZEOF_INT, segs, args);
  }

  /** The word behind the format is the number of bytes behind that word. */
  lemma {:induction false} SizeWordCountsArguments(format: seq<byte>, args: seq<Arg>)
    requires NullFree(format) && |PackedArgs(args)| < WordValues(SIZEOF_INT)
    ensures var data := Packed(format, args);
      var word := CollectBytes(data, CollectString(data, 0).next, SIZEOF_INT);
      word.ok && FromBytes(word.value) == |data| - word.next
  {
    hide CollectString, FormatSegments, PackedArgs, ToBytes, FromBytes, Pieces, ArgsFit;
    var data, size := Packed(format, args), ToBytes(SIZEOF_INT, |PackedArgs(args)|);
    assert data[0..|data|] == data;
    AtSplit(data, 0, (format + [0]) + size, PackedArgs(args));
    AtSplit(data, 0, format + [0], size);
    StringCollected(data, 0, format);
    WordCollected(data, |format| + 1, |PackedArgs(args)|);
  }

  // ---------------------------------------------------------------------------------------------------------
  // Nothing is lost

  lemma {:induction false} ElementsDetermined(data: seq<byte>, next: nat, a: seq<Element>, b: seq<Element>,
      base: BaseType)
    requires |a| == |b| && forall k :: 0 <= k < |a| ==> ElementFits(a[k], base) && ElementFits(b[k], base)
    requires At(data, next, PackedElements(a)) && At(data, next, PackedElements(b))
    ensures a == b
    decreases |a|
  {
    hide At, ReadElement, PackedElement, ElementFits;
    if a != [] {
      AtSplit(data, next, PackedElement(a[0]), PackedElements(a[1..]));
      AtSplit(data, next, PackedElement(b[0]), PackedElements(b[1..]));
      ElementRoundTrip(data, next, a[0], base);
      ElementRoundTrip(data, next, b[0], base);
      ElementsDetermined(data, next + |PackedElement(a[0])|, a[1..], b[1..], base);
      assert a == [a[0]] + a[1..] && b == [b[0]] + b[1..];
    }
  }

  lemma {:induction false} ArrayHead(data: seq<byte>, next: nat, es: seq<Element>, delim: seq<byte>)
    requires |es| < WordValues(SIZEOF_INT) && NullFree(delim) && At(data, next, PackedArg(Array(es, delim)))
    ensures next + SIZEOF_INT <= |data|
    ensures FromBytes(CollectBytes(data, next, SIZEOF_INT).value) == |es|
    ensures CollectString(data, next + SIZEOF_INT) == Collected(true, next + SIZEOF_INT + |delim| + 1, delim)
    ensures At(data, next + SIZEOF_INT + |delim| + 1, PackedElements(es))
  {
    hide At, PackedElements, ToBytes, FromBytes, CollectString, CollectBytes, NullFree, WordValues;
    ArrayParts(data, next, es, delim, ToBytes(SIZEOF_INT, |es|));
    WordCollected(data, next, |es|);
    StringCollected(data, next + SIZEOF_INT, delim);
  }

  lemma {:induction false} ArgDetermined(data: seq<byte>, next: nat, a: Arg, b: Arg, conv: Conversion)
    requires ArgFits(a, conv) && ArgFits(b, conv)
    requires At(data, next, PackedArg(a)) && At(data, next, PackedArg(b))
    ensures a == b
  {
    hide At, ReadElement, PackedElement, PackedElements, ElementFits, CollectString, CollectBytes, FromBytes, ToBytes;
    if conv.isArray {
      ArrayHead(data, next, a.elems, a.delim);
      ArrayHead(data, next, b.elems, b.delim);
      ElementsDetermined(data, CollectString(data, next + SIZEOF_INT).next, a.elems, b.elems, conv.base);
    } else {
      ElementRoundTrip(data, next, a.elem, conv.base);
      ElementRoundTrip(data, next, b.elem, conv.base);
    }
  }

  /** Two argument lists for the same conversions that pack to the same bytes are the same, delimiters included. */
  lemma {:induction false} PackingLosesNothing(data: seq<byte>, next: nat, a: seq<Arg>, b: seq<Arg>,
      convs: seq<Conversion>)
    requires ArgsFit(a, convs) && ArgsFit(b, convs)
    requires At(data, next, PackedArgs(a)) && At(data, next, PackedArgs(b))
    ensures a == b
    decreases |a|
  {
    hide At, PackedArg, ArgFits;
    if a != [] {
      AtSplit(data, next, PackedArg(a[0]), PackedArgs(a[1..]));
      AtSplit(data, next, PackedArg(b[0]), PackedArgs(b[1..]));
      ArgDetermined(data, next, a[0], b[0], convs[0]);
      assert forall i :: 0 <= i < |a| - 1 ==>
        a[1..][i] == a[i + 1] && b[1..][i] == b[i + 1] && convs[1..][i] == convs[i + 1];
      PackingLosesNothing(data, next + |PackedArg(a[0])|, a[1..], b[1..], convs[1..]);
      assert a == [a[0]] + a[1..] && b == [b[0]] + b[1..];
    }
  }
}
