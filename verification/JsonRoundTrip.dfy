/** What is printed is a text of the grammar that means the value; so parsing undoes printing. */
module JsonRoundTrip {
  import opened Bits
  import opened JsonText
  import opened JsonGrammar
  import opened JsonString
  import opened JsonParse
  import opened JsonPrint
  import opened JsonLaw

  // ---- Strings and numbers -----------------------------------------------------------------

  function PrintedUnit(b: byte): Unit {
    if EscapeLetter(b) != 0 then Short(EscapeLetter(b))
    else if b < 32 then Code(b, [48, 48, HexDigit(b / 16), HexDigit(b % 16)])
    else Plain(b)
  }

  function PrintedUnits(s: seq<byte>): (u: seq<Unit>)
    ensures |u| == |s|
  {
    seq(|s|, k requires 0 <= k < |s| => PrintedUnit(s[k]))
  }

  lemma LowerDigit(v: nat)
    requires v < 16
    ensures IsHex(HexDigit(v), v)
  {
    LetterOf(v);
  }

  lemma UnitPrinted(b: byte)
    ensures UnitOk(PrintedUnit(b)) && UnitText(PrintedUnit(b)) == EscapeOf(b) && UnitMeaning(PrintedUnit(b)) == [b]
  {
    hide IsHex, HexDigit;
    if EscapeLetter(b) == 0 && b < 32 {
      LowerDigit(0);
      LowerDigit(b / 16);
      LowerDigit(b % 16);
      assert HexDigit(0) == 48 by { ZeroDigit(); }
      assert Spells([48, 48, HexDigit(b / 16), HexDigit(b % 16)], b);
    }
  }

  lemma ZeroDigit()
    ensures HexDigit(0) == 48
  {
  }

  /** The printed string is written by the rules and means the string. */
  lemma {:induction false} UnitsPrinted(s: seq<byte>)
    ensures UnitsOk(PrintedUnits(s)) && UnitsText(PrintedUnits(s)) == Escaped(s) && UnitsMeaning(PrintedUnits(s)) == s
  {
    hide PrintedUnit, UnitOk, UnitText, UnitMeaning, EscapeOf;
    if s != [] {
      UnitPrinted(s[0]);
      UnitsPrinted(s[1..]);
      assert PrintedUnits(s)[1..] == PrintedUnits(s[1..]);
      assert PrintedUnits(s) == [PrintedUnit(s[0])] + PrintedUnits(s[1..]);
    }
  }

  lemma StringPrinted(s: cstring)
    ensures var u := PrintedUnits(s); UnitsOk(u) && Quoted(u) == StringText(s) && Holds(s, UnitsMeaning(u))
  {
    UnitsPrinted(s);
  }

  /** A printed string is read back, whatever follows it. */
  lemma StringBack(c: seq<byte>, i: nat, s: cstring)
    requires At(c, i, StringText(s))
    ensures StringAt(c, i) == Some((s, i + |StringText(s)|))
  {
    hide StringAt, StringText, Quoted, UnitsMeaning, Holds, UnitsOk;
    StringPrinted(s);
    QuotedRead(c, i, PrintedUnits(s), s);
  }

  lemma {:induction false} DigitsPrinted(n: nat)
    ensures Decimal(Digits(n)) && DecimalValue(Digits(n)) == n && (n > 0 ==> Digits(n)[0] != 48) && (n == 0 ==> |Digits(n)| == 1)
  {
    if n < 10 {
      assert Digits(n)[..0] == [];
    } else {
      DigitsPrinted(n / 10);
      assert Digits(n)[..|Digits(n)| - 1] == Digits(n / 10);
    }
  }

  /** The digits printed for an integer are read as that integer. */
  lemma StrtodBack(n: int32)
    ensures Strtod(NumberText(n)) == Ok(n, |NumberText(n)|)
  {
    hide Digits, Strtod;
    var m: nat := if n < 0 then -(n as int) else n;
    DigitsPrinted(m);
    StrtodRead(NumberText(n), n < 0, Digits(m), n);
  }

  // ---- Trees -------------------------------------------------------------------------------

  /** How a value is printed, as a text of the grammar. */
  function Printed(v: Json, depth: nat, fmt: bool): (x: Syntax)
    decreases v
  {
    match v
    case Null => Word(v)
    case Bool(_) => Word(v)
    case Number(n) => Integer(n < 0, Digits(if n < 0 then -(n as int) else n))
    case Str(s) => Chars(PrintedUnits(s))
    case Array(items) =>
      List([], seq(|items|, k requires 0 <= k < |items| =>
        Item(if k > 0 && fmt then [SPACE] else [], Printed(items[k], depth + 1, fmt), [])))
    case Object(members) =>
      Record(Line(depth, fmt), seq(|members|, k requires 0 <= k < |members| =>
        Field(Line(depth + 1, fmt), PrintedUnits(members[k].key), [],
              Item(if fmt then [TAB] else [], Printed(members[k].value, depth + 1, fmt),
                   if k + 1 < |members| then [] else Line(depth, fmt)))))
  }

  /** A new line with its indentation. */
  function Line(depth: nat, fmt: bool): seq<byte> {
    if fmt then [NEWLINE] + Tabs(depth) else []
  }

  lemma LineWhite(depth: nat, fmt: bool)
    ensures White(Line(depth, fmt))
  {
  }

  /** The printed text is a text of the grammar, and it means the value. */
  lemma {:induction false} PrintedProper(v: Json, depth: nat, fmt: bool)
    requires Nests(v, depth)
    ensures Proper(Printed(v, depth, fmt), depth) && Means(Printed(v, depth, fmt), v, depth)
    decreases v
  {
    hide Line, PrintedUnits, UnitsOk, UnitsMeaning, Holds, White, Digits, DecimalValue, Decimal;
    LineWhite(depth, fmt);
    LineWhite(depth + 1, fmt);
    BlanksWhite();
    match v {
      case Null =>
      case Bool(_) =>
      case Number(n) => DigitsPrinted(if n < 0 then -(n as int) else n);
      case Str(s) => StringPrinted(s);
      case Array(items) =>
        forall k | 0 <= k < |items|
          ensures Proper(Printed(items[k], depth + 1, fmt), depth + 1) && Means(Printed(items[k], depth + 1, fmt), items[k], depth + 1)
        {
          PrintedProper(items[k], depth + 1, fmt);
        }
      case Object(members) =>
        forall k | 0 <= k < |members|
          ensures Proper(Printed(members[k].value, depth + 1, fmt), depth + 1)
          ensures Means(Printed(members[k].value, depth + 1, fmt), members[k].value, depth + 1)
          ensures UnitsOk(PrintedUnits(members[k].key)) && Holds(members[k].key, UnitsMeaning(PrintedUnits(members[k].key)))
        {
          PrintedProper(members[k].value, depth + 1, fmt);
          StringPrinted(members[k].key);
        }
    }
  }

  lemma BlanksWhite()
    ensures White([]) && White([SPACE]) && White([TAB])
  {
  }

  /** The text is what the printer writes. */
  lemma {:induction false} PrintedWritten(v: Json, depth: nat, fmt: bool)
    ensures Written(Printed(v, depth, fmt)) == Text(v, depth, fmt)
    decreases v, 1, 0
  {
    hide PrintedUnits, Quoted, StringText, Digits, ItemsFrom, FieldsFrom, ArrayRest, ObjectRest, Tabs;
    match v {
      case Null => WordTexts();
      case Bool(_) => WordTexts();
      case Number(_) =>
      case Str(s) => StringPrinted(s);
      case Array(items) =>
        if items != [] {
          ItemsPrinted(v, 0, depth, fmt);
        } else {
          NoneRest(v, depth + 1, fmt);
        }
      case Object(members) =>
        if members != [] {
          FieldsPrinted(v, 0, depth, fmt);
        } else {
          NoneRest(v, depth + 1, fmt);
        }
    }
  }

  lemma NoneRest(v: Json, depth: nat, fmt: bool)
    requires depth > 0
    ensures v.Array? ==> ArrayRest(v, |v.items|, depth, fmt) == [CLOSE_ARRAY]
    ensures v.Object? ==> ObjectRest(v, |v.members|, depth, fmt) == (if fmt then Tabs(depth - 1) else []) + [CLOSE_OBJECT]
  {
  }

  lemma {:induction false} ItemsPrinted(v: Json, k: nat, depth: nat, fmt: bool)
    requires v.Array? && k < |v.items|
    ensures ItemsFrom(Printed(v, depth, fmt), k) == (if k > 0 && fmt then [SPACE] else []) + ArrayRest(v, k, depth + 1, fmt)
    decreases v, 0, |v.items| - k
  {
    hide Text, ArrayRest, Written, ItemsFrom;
    var x := Printed(v, depth, fmt);
    ItemsSplit(x, k);
    PrintedWritten(v.items[k], depth + 1, fmt);
    RestSplit(v, k, depth + 1, fmt);
    if k + 1 < |v.items| {
      ItemsPrinted(v, k + 1, depth, fmt);
    } else {
      NoneRest(v, depth + 1, fmt);
    }
  }

  lemma RestSplit(v: Json, k: nat, depth: nat, fmt: bool)
    requires depth > 0
    ensures v.Array? && k < |v.items| ==>
              ArrayRest(v, k, depth, fmt)
              == Text(v.items[k], depth, fmt) + Separator(k + 1 < |v.items|, fmt) + ArrayRest(v, k + 1, depth, fmt)
    ensures v.Object? && k < |v.members| ==>
              ObjectRest(v, k, depth, fmt)
              == KeyText(v.members[k].key, depth, fmt) + Text(v.members[k].value, depth, fmt)
                 + MemberEnd(k + 1 < |v.members|, fmt) + ObjectRest(v, k + 1, depth, fmt)
  {
    hide Text, Separator, KeyText, MemberEnd;
  }

  lemma {:induction false} FieldsPrinted(v: Json, k: nat, depth: nat, fmt: bool)
    requires v.Object? && k < |v.members|
    ensures FieldsFrom(Printed(v, depth, fmt), k) == Newline(fmt) + ObjectRest(v, k, depth + 1, fmt)
    decreases v, 0, |v.members| - k
  {
    hide Text, ObjectRest, FieldsFrom, FieldText, Line, KeyText, MemberEnd, Tabs, StringText, Newline, Printed;
    PrintedWritten(v.members[k].value, depth + 1, fmt);
    var x := Printed(v, depth, fmt);
    assert x.Record? && |x.fields| == |v.members| by { PrintedShape(v, depth, fmt); }
    FieldsSplit(x, k);
    RestSplit(v, k, depth + 1, fmt);
    PrintedField(v, k, depth, fmt);
    var more := k + 1 < |v.members|;
    if more {
      FieldsPrinted(v, k + 1, depth, fmt);
    }
    var tail := if more then [COMMA] + FieldsFrom(x, k + 1) else [CLOSE_OBJECT];
    var after := if more then [] else Line(depth, fmt);
    TailsAgree(v, k, depth, fmt, after, tail);
    KeyForm(v.members[k].key, depth + 1, fmt);
    Rearranged(Newline(fmt), if fmt then Tabs(depth + 1) else [], StringText(v.members[k].key), Tabbed(fmt),
               Text(v.members[k].value, depth + 1, fmt), after, tail, MemberEnd(more, fmt), ObjectRest(v, k + 1, depth + 1, fmt));
  }

  function Newline(fmt: bool): seq<byte> {
    if fmt then [NEWLINE] else []
  }

  function Tabbed(fmt: bool): seq<byte> {
    if fmt then [TAB] else []
  }

  lemma PrintedShape(v: Json, depth: nat, fmt: bool)
    requires v.Object?
    ensures Printed(v, depth, fmt).Record? && |Printed(v, depth, fmt).fields| == |v.members|
  {
  }

  lemma KeyForm(key: seq<byte>, depth: nat, fmt: bool)
    ensures KeyText(key, depth, fmt) == (if fmt then Tabs(depth) else []) + StringText(key) + ([COLON] + Tabbed(fmt))
    ensures Line(depth, fmt) == Newline(fmt) + if fmt then Tabs(depth) else []
  {
    hide Tabs, StringText;
  }

  /** What stands behind a member, in both forms. */
  lemma TailsAgree(v: Json, k: nat, depth: nat, fmt: bool, after: seq<byte>, tail: seq<byte>)
    requires v.Object? && k < |v.members| && after == if k + 1 < |v.members| then [] else Line(depth, fmt)
    requires if k + 1 < |v.members| then tail == [COMMA] + (Newline(fmt) + ObjectRest(v, k + 1, depth + 1, fmt)) else tail == [CLOSE_OBJECT]
    ensures after + tail == MemberEnd(k + 1 < |v.members|, fmt) + ObjectRest(v, k + 1, depth + 1, fmt)
  {
    hide ObjectRest, Tabs;
    NoneRest(v, depth + 1, fmt);
    var rest := ObjectRest(v, k + 1, depth + 1, fmt);
    if k + 1 < |v.members| {
      assert [COMMA] + (Newline(fmt) + rest) == ([COMMA] + Newline(fmt)) + rest;
    } else {
      assert Line(depth, fmt) + [CLOSE_OBJECT] == Newline(fmt) + rest;
    }
  }

  lemma PrintedField(v: Json, k: nat, depth: nat, fmt: bool)
    requires v.Object? && k < |v.members|
    requires Written(Printed(v.members[k].value, depth + 1, fmt)) == Text(v.members[k].value, depth + 1, fmt)
    ensures FieldText(Printed(v, depth, fmt).fields[k])
         == Line(depth + 1, fmt)
            + (StringText(v.members[k].key)
               + ([] + ([COLON] + (Tabbed(fmt)
                                   + (Text(v.members[k].value, depth + 1, fmt) + if k + 1 < |v.members| then [] else Line(depth, fmt))))))
  {
    hide Text, Written, Line, Quoted, StringText, PrintedUnits;
    StringPrinted(v.members[k].key);
  }

  lemma Rearranged(nl: seq<byte>, tabs: seq<byte>, q: seq<byte>, tab: seq<byte>, t: seq<byte>, after: seq<byte>, tail: seq<byte>, end: seq<byte>, rest: seq<byte>)
    requires after + tail == end + rest
    ensures (nl + tabs) + (q + ([] + ([COLON] + (tab + (t + after))))) + tail
         == nl + ((tabs + q + ([COLON] + tab)) + t + end + rest)
  {
    var front := (nl + tabs) + (q + ([COLON] + (tab + t)));
    assert (nl + tabs) + (q + ([] + ([COLON] + (tab + (t + after))))) + tail == front + (after + tail);
    assert nl + ((tabs + q + ([COLON] + tab)) + t + end + rest) == front + (end + rest);
  }

  // ---- Reading what was printed ------------------------------------------------------------

  /** Main result: the text of a value, wherever it stands and before anything that cannot continue a number,
      is read back as that value, and nothing more is consumed. */
  lemma ValueBack(c: seq<byte>, i: nat, v: Json, depth: nat, fmt: bool)
    requires At(c, i, Text(v, depth, fmt)) && Stops(c, i + |Text(v, depth, fmt)|) && Nests(v, depth)
    ensures Value(c, i, depth) == Ok(v, i + |Text(v, depth, fmt)|)
  {
    hide Value, Text, Nests, Printed, Proper, Means, Written;
    PrintedProper(v, depth, fmt);
    PrintedWritten(v, depth, fmt);
    SyntaxRead(c, i, Printed(v, depth, fmt), v, depth);
  }

  lemma ArrayBack(c: seq<byte>, i: nat, v: Json, depth: nat, fmt: bool)
    requires v.Array? && At(c, i, Text(v, depth, fmt)) && Nests(v, depth)
    ensures ArrayAt(c, i, depth) == Ok(v, i + |Text(v, depth, fmt)|)
  {
    hide ArrayAt, Text, Nests, Proper, Means, Written;
    PrintedProper(v, depth, fmt);
    PrintedWritten(v, depth, fmt);
    ListRead(c, i, Printed(v, depth, fmt), v, depth);
  }

  lemma ObjectBack(c: seq<byte>, i: nat, v: Json, depth: nat, fmt: bool)
    requires v.Object? && At(c, i, Text(v, depth, fmt)) && Nests(v, depth)
    ensures ObjectAt(c, i, depth) == Ok(v, i + |Text(v, depth, fmt)|)
  {
    hide ObjectAt, Text, Nests, Proper, Means, Written;
    PrintedProper(v, depth, fmt);
    PrintedWritten(v, depth, fmt);
    RecordRead(c, i, Printed(v, depth, fmt), v, depth);
  }

  /** Parsing a printed value gives the value. */
  lemma TextBack(v: Json, fmt: bool)
    requires Nests(v, 0) && NoNul(Text(v, 0, fmt))
    ensures ParseText(Text(v, 0, fmt)) == Ok(v, |Text(v, 0, fmt)|)
  {
    hide Parse, Text, Nests, Printed, Proper, Means, Written;
    var t := Text(v, 0, fmt);
    PrintedProper(v, 0, fmt);
    PrintedWritten(v, 0, fmt);
    assert t + [0] == [] + ([] + (t + [0]));
    Spelled(t + [0], false, [], Printed(v, 0, fmt), v, [0]);
  }

  /** Different values never print the same, even one formatted and the other not. */
  lemma TextInjective(v: Json, w: Json, fmt: bool, gmt: bool)
    requires Nests(v, 0) && Nests(w, 0) && Text(v, 0, fmt) == Text(w, 0, gmt)
    ensures v == w
  {
    hide Text, Nests, ParseText;
    TextNoNul(v, 0, fmt);
    TextBack(v, fmt);
    TextBack(w, gmt);
  }

  /** `cJSON_Print` or `cJSON_PrintUnformatted`, and then `cJSON_Parse`: the text is one of the grammar for the
      value, and it is read back. */
  method PrintAndParse(v: Json, fmt: bool) returns (text: Option<cstring>, back: Outcome<Json>)
    ensures text.Some? <==> Printable(v, fmt, INT_MAX)
    ensures text.Some? ==> back == Ok(v, |text.value|)
    ensures text.Some? ==> exists x :: Proper(x, 0) && Means(x, v, 0) && text.value == Written(x)
  {
    hide Parse, Text, Nests, Proper, Means, Written, Printed;
    back := Bad;
    text := Print(v, fmt);
    if text.Some? {
      TextNoNul(v, 0, fmt);
      TextBack(v, fmt);
      PrintedProper(v, 0, fmt);
      PrintedWritten(v, 0, fmt);
      back := ParseWithLength(text.value + [0]);
    }
  }
}
