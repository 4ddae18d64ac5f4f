/** Every text of the grammar, however it is spelled, is parsed to what it means. */
module JsonLaw {
  import opened Bits
  import opened JsonText
  import opened JsonGrammar
  import opened JsonString
  import opened JsonParse

  // ---- Strings -----------------------------------------------------------------------------

  lemma HexIsPlain(b: byte, v: nat)
    requires IsHex(b, v)
    ensures b != QUOTE && b != BACKSLASH
  {
    LetterOf(v);
  }

  /** The first pass goes over four digits. */
  lemma DigitsScanned(c: seq<byte>, i: nat, d: seq<byte>, v: nat)
    requires At(c, i, d) && Spells(d, v)
    ensures EndQuote(c, i) == EndQuote(c, i + 4)
  {
    hide IsHex;
    Shown(c, i, d);
    HexIsPlain(d[0], v / 4096);
    HexIsPlain(d[1], v / 256 % 16);
    HexIsPlain(d[2], v / 16 % 16);
    HexIsPlain(d[3], v % 16);
    assert c[i + 0] == d[0] && c[i + 1] == d[1] && c[i + 2] == d[2] && c[i + 3] == d[3];
    assert EndQuote(c, i) == EndQuote(c, i + 1) && EndQuote(c, i + 1) == EndQuote(c, i + 2);
    assert EndQuote(c, i + 2) == EndQuote(c, i + 3) && EndQuote(c, i + 3) == EndQuote(c, i + 4);
  }

  lemma CodeScanned(c: seq<byte>, i: nat, d: seq<byte>, v: nat)
    requires At(c, i, [92, 117] + d) && Spells(d, v)
    ensures EndQuote(c, i) == EndQuote(c, i + 6)
  {
    hide Spells;
    assert |d| == 4 by { SpelledLength(d, v); }
    AtSplit(c, i, [92, 117], d);
    Shown(c, i, [92, 117]);
    assert c[i + 0] == 92;
    DigitsScanned(c, i + 2, d, v);
  }

  lemma SpelledLength(d: seq<byte>, v: nat)
    requires Spells(d, v)
    ensures |d| == 4 && v <= 0xFFFF
  {
  }

  /** The first pass goes over one unit. */
  lemma UnitScanned(c: seq<byte>, i: nat, u: Unit)
    requires UnitOk(u) && At(c, i, UnitText(u))
    ensures EndQuote(c, i) == EndQuote(c, i + |UnitText(u)|)
  {
    hide Spells;
    Shown(c, i, UnitText(u));
    match u {
      case Plain(b) => assert c[i + 0] == b;
      case Short(letter) => assert c[i + 0] == 92 && c[i + 1] == letter;
      case Code(v, d) =>
        SpelledLength(d, v);
        CodeScanned(c, i, d, v);
      case Pair(h, d, l, e) =>
        SpelledLength(d, h);
        SpelledLength(e, l);
        AtSplit(c, i, [92, 117] + d, [92, 117] + e);
        CodeScanned(c, i, d, h);
        CodeScanned(c, i + 6, e, l);
    }
  }

  lemma HexThere(c: seq<byte>, i: nat, d: seq<byte>, v: nat)
    requires At(c, i, [92, 117] + d) && Spells(d, v)
    ensures i + 6 <= |c| && c[i] == BACKSLASH && c[i + 1] == LETTER_U && Hex4(c, i + 2) == v
  {
    hide Spells, Hex4;
    SpelledLength(d, v);
    AtSplit(c, i, [92, 117], d);
    Shown(c, i, [92, 117]);
    assert c[i + 0] == 92 && c[i + 1] == 117;
    SpelledHex(c, i + 2, v);
  }

  /** The second pass turns one unit into its meaning. */
  lemma UnitRead(c: seq<byte>, i: nat, end: nat, acc: seq<byte>, u: Unit)
    requires UnitOk(u) && At(c, i, UnitText(u)) && i + |UnitText(u)| <= end < |c|
    ensures Unescape(c, i, end, acc) == Unescape(c, i + |UnitText(u)|, end, acc + UnitMeaning(u))
  {
    hide Spells, Unescape, Hex4, Utf8, Encoding;
    Shown(c, i, UnitText(u));
    UnescapeStep(c, i, end, acc);
    match u {
      case Plain(b) => assert c[i + 0] == b;
      case Short(letter) => assert c[i + 0] == 92 && c[i + 1] == letter;
      case Code(v, d) =>
        SpelledLength(d, v);
        HexThere(c, i, d, v);
        Utf8IsEncoding(v);
      case Pair(h, d, l, e) =>
        SpelledLength(d, h);
        SpelledLength(e, l);
        AtSplit(c, i, [92, 117] + d, [92, 117] + e);
        HexThere(c, i, d, h);
        HexThere(c, i + 6, e, l);
        Utf8IsEncoding(0x10000 + (h - 0xD800) * 0x400 + (l - 0xDC00));
    }
  }

  lemma {:induction false} UnitsScanned(c: seq<byte>, i: nat, s: seq<Unit>)
    requires UnitsOk(s) && At(c, i, UnitsText(s))
    ensures EndQuote(c, i) == EndQuote(c, i + |UnitsText(s)|)
    decreases |s|
  {
    hide EndQuote, UnitText, UnitOk;
    if s != [] {
      AtSplit(c, i, UnitText(s[0]), UnitsText(s[1..]));
      UnitScanned(c, i, s[0]);
      UnitsScanned(c, i + |UnitText(s[0])|, s[1..]);
    }
  }

  lemma {:induction false} UnitsRead(c: seq<byte>, i: nat, end: nat, acc: seq<byte>, s: seq<Unit>)
    requires UnitsOk(s) && At(c, i, UnitsText(s)) && end == i + |UnitsText(s)| < |c|
    ensures Unescape(c, i, end, acc) == Some(acc + UnitsMeaning(s))
    decreases |s|
  {
    hide Unescape, UnitText, UnitOk, UnitMeaning;
    if s != [] {
      AtSplit(c, i, UnitText(s[0]), UnitsText(s[1..]));
      UnitRead(c, i, end, acc, s[0]);
      UnitsRead(c, i + |UnitText(s[0])|, end, acc + UnitMeaning(s[0]), s[1..]);
      assert acc + UnitMeaning(s[0]) + UnitsMeaning(s[1..]) == acc + UnitsMeaning(s);
    } else {
      UnescapeStep(c, i, end, acc);
      assert acc + UnitsMeaning(s) == acc;
    }
  }

  lemma {:induction false} TruncateHolds(s: cstring, bytes: seq<byte>)
    requires Holds(s, bytes)
    ensures Truncate(bytes) == s
    decreases |bytes|
  {
    if s != [] {
      assert bytes[0] == s[0];
      assert s[1..] <= bytes[1..];
      TruncateHolds(s[1..], bytes[1..]);
    }
  }

  /** A quoted text is read as what it means, up to the first zero, whatever follows it. */
  lemma QuotedRead(c: seq<byte>, i: nat, units: seq<Unit>, s: cstring)
    requires UnitsOk(units) && At(c, i, Quoted(units)) && Holds(s, UnitsMeaning(units))
    ensures StringAt(c, i) == Some((s, i + |Quoted(units)|))
  {
    hide EndQuote, Unescape, Truncate, UnitsText, UnitsMeaning, Holds, UnitsOk;
    var q: seq<byte> := [QUOTE];
    AtSplit(c, i, q, UnitsText(units) + q);
    AtSplit(c, i + 1, UnitsText(units), q);
    Shown(c, i, q);
    var end := i + 1 + |UnitsText(units)|;
    Shown(c, end, q);
    assert c[i + 0] == QUOTE && c[end + 0] == QUOTE;
    UnitsScanned(c, i + 1, units);
    QuoteHere(c, end);
    UnitsRead(c, i + 1, end, [], units);
    assert [] + UnitsMeaning(units) == UnitsMeaning(units);
    TruncateHolds(s, UnitsMeaning(units));
  }

  // ---- Numbers -----------------------------------------------------------------------------

  lemma {:induction false} AllDigits(t: seq<byte>, i: nat)
    requires i <= |t| && forall k :: i <= k < |t| ==> IsDigit(t[k])
    ensures DigitsEnd(t, i) == |t|
    decreases |t| - i
  {
    if i < |t| {
      AllDigits(t, i + 1);
    }
  }

  lemma {:induction false} DecimalIsDigits(d: seq<byte>)
    requires forall k :: 0 <= k < |d| ==> IsDigit(d[k])
    ensures DigitsValue(d) == DecimalValue(d)
  {
    if d != [] {
      DecimalIsDigits(d[..|d| - 1]);
    }
  }

  /** The byte at `i`, if there is one, could not continue a number. */
  predicate Stops(c: seq<byte>, i: nat) {
    i >= |c| || !IsNumberByte(c[i])
  }

  lemma {:induction false} TokenStops(c: seq<byte>, i: nat, end: nat)
    requires i <= end <= |c| && Stops(c, end)
    requires forall k :: i <= k < end ==> IsNumberByte(c[k])
    ensures TokenEnd(c, i) == end
    decreases end - i
  {
    if i < end {
      TokenStops(c, i + 1, end);
    }
  }

  lemma StrtodRead(t: seq<byte>, negative: bool, d: seq<byte>, v: int32)
    requires Decimal(d) && t == (if negative then [MINUS] else []) + d
    requires v as int == if negative then -DecimalValue(d) else DecimalValue(d)
    ensures Strtod(t) == Ok(v, |t|)
  {
    hide DecimalValue;
    var start := if negative then 1 else 0;
    assert t[start..] == d && t[start..|t|] == d;
    forall k | start <= k < |t|
      ensures IsDigit(t[k])
    {
      assert t[k] == d[k - start];
    }
    AllDigits(t, start);
    DecimalIsDigits(d);
  }

  lemma NumberRead(c: seq<byte>, i: nat, negative: bool, d: seq<byte>, v: int32)
    requires Decimal(d) && v as int == if negative then -DecimalValue(d) else DecimalValue(d)
    requires var t := (if negative then [MINUS] else []) + d; At(c, i, t) && Stops(c, i + |t|)
    ensures NumberAt(c, i) == Ok(Number(v), i + (if negative then 1 else 0) + |d|)
  {
    hide Strtod, DecimalValue;
    var t := (if negative then [MINUS] else []) + d;
    Shown(c, i, t);
    var end := i + |t|;
    forall k | i <= k < end
      ensures IsNumberByte(c[k])
    {
      assert c[i + (k - i)] == t[k - i];
    }
    TokenStops(c, i, end);
    StrtodRead(t, negative, d, v);
  }

  // ---- Blanks ------------------------------------------------------------------------------

  lemma {:induction false} SpaceStops(c: seq<byte>, i: nat, end: nat)
    requires i <= end < |c| && c[end] > 32
    requires forall k :: i <= k < end ==> c[k] <= 32
    ensures SpaceEnd(c, i) == end
    decreases end - i
  {
    if i < end {
      SpaceStops(c, i + 1, end);
    }
  }

  lemma SkipBlanks(c: seq<byte>, i: nat, t: seq<byte>)
    requires At(c, i, t) && White(t) && i + |t| < |c| && c[i + |t|] > 32
    ensures Skip(c, i) == i + |t| && (i < |c| && Skip(c, i + |t|) == i + |t|)
  {
    hide SpaceEnd;
    Shown(c, i, t);
    forall k | i <= k < i + |t|
      ensures c[k] <= 32
    {
      assert c[i + (k - i)] == t[k - i];
    }
    SpaceStops(c, i, i + |t|);
    SpaceStops(c, i + |t|, i + |t|);
  }

  // ---- Values ------------------------------------------------------------------------------

  lemma NotHas(c: seq<byte>, i: nat, t: seq<byte>)
    requires i < |c| && t != [] && c[i] != t[0]
    ensures !Has(c, i, t)
  {
    if i + |t| <= |c| {
      assert c[i..i + |t|][0] == c[i];
    }
  }

  /** `parse_value` dispatches on the first byte. */
  lemma Dispatch(c: seq<byte>, i: nat, depth: nat)
    requires i < |c| && c[i] != 110 && c[i] != 102 && c[i] != 116
    ensures Value(c, i, depth)
         == if c[i] == QUOTE then match StringAt(c, i) { case None => Bad case Some(s) => Ok(Str(s.0), s.1) }
            else if c[i] == MINUS || IsDigit(c[i]) then NumberAt(c, i)
            else if c[i] == OPEN_ARRAY then ArrayAt(c, i, depth)
            else if c[i] == OPEN_OBJECT then ObjectAt(c, i, depth)
            else Bad
  {
    hide StringAt, NumberAt, ArrayAt, ObjectAt, Has;
    NotHas(c, i, NULL_TEXT);
    NotHas(c, i, FALSE_TEXT);
    NotHas(c, i, TRUE_TEXT);
  }

  lemma WordRead(c: seq<byte>, i: nat, v: Json, depth: nat)
    requires (v.Null? || v.Bool?) && At(c, i, Written(Word(v)))
    ensures Value(c, i, depth) == Ok(v, i + |Written(Word(v))|)
  {
    WordTexts();
    Shown(c, i, Written(Word(v)));
    if v.Bool? {
      assert c[i + 0] != 110;
      NotHas(c, i, NULL_TEXT);
      if v.b {
        NotHas(c, i, FALSE_TEXT);
      }
    }
  }

  lemma WordTexts()
    ensures Ascii("null") == NULL_TEXT && Ascii("true") == TRUE_TEXT && Ascii("false") == FALSE_TEXT
  {
  }

  /** How a written value begins. */
  lemma WrittenBegins(x: Syntax, depth: nat)
    requires Proper(x, depth)
    ensures Written(x) != []
    ensures var b := Written(x)[0];
            && b > 32 && b != CLOSE_ARRAY && b != CLOSE_OBJECT && b != 0xEF
            && (x.Word? || (b != 110 && b != 102 && b != 116))
            && (b == QUOTE <==> x.Chars?) && (b == MINUS || IsDigit(b) <==> x.Integer?)
            && (b == OPEN_ARRAY <==> x.List?) && (b == OPEN_OBJECT <==> x.Record?)
  {
    hide ItemsFrom, FieldsFrom, UnitsText, DecimalValue;
    WordTexts();
  }

  /** A value that ends where a number could not go on. */
  lemma {:induction false} SyntaxRead(c: seq<byte>, i: nat, x: Syntax, v: Json, depth: nat)
    requires Proper(x, depth) && Means(x, v, depth)
    requires At(c, i, Written(x)) && Stops(c, i + |Written(x)|)
    ensures Value(c, i, depth) == Ok(v, i + |Written(x)|)
    decreases x, 3
  {
    hide Value, ItemsFrom, FieldsFrom, Quoted, Stops, IsDigit, DecimalValue, StringAt, NumberAt, ArrayAt, ObjectAt;
    WrittenBegins(x, depth);
    Shown(c, i, Written(x));
    assert c[i + 0] == Written(x)[0];
    match x {
      case Word(w) =>
        WordRead(c, i, w, depth);
      case Integer(negative, d) =>
        Dispatch(c, i, depth);
        NumberRead(c, i, negative, d, v.n);
      case Chars(units) =>
        Dispatch(c, i, depth);
        QuotedRead(c, i, units, v.s);
      case List(_, _) =>
        Dispatch(c, i, depth);
        ListRead(c, i, x, v, depth);
      case Record(_, _) =>
        Dispatch(c, i, depth);
        RecordRead(c, i, x, v, depth);
    }
  }

  predicate ItemFits(x: Item, v: Json, depth: nat) {
    White(x.before) && White(x.after) && Proper(x.value, depth) && Means(x.value, v, depth)
  }

  lemma AllFit(x: Syntax, v: Json, depth: nat)
    requires Proper(x, depth) && Means(x, v, depth)
    ensures x.List? ==> v.Array? && |v.items| == |x.items| && White(x.blank)
                        && forall k :: 0 <= k < |x.items| ==> ItemFits(x.items[k], v.items[k], depth + 1)
    ensures x.Record? ==> v.Object? && |v.members| == |x.fields| && White(x.blank)
                          && forall k :: 0 <= k < |x.fields| ==> FieldFits(x.fields[k], v.members[k], depth + 1)
    ensures x.List? || x.Record? ==> depth < 1000
  {
    hide White, Holds, UnitsOk, UnitsMeaning;
  }

  lemma ListText(x: Syntax)
    ensures x.List? ==> Written(x) == [OPEN_ARRAY] + if x.items == [] then x.blank + [CLOSE_ARRAY] else ItemsFrom(x, 0)
    ensures x.Record? ==> Written(x) == [OPEN_OBJECT] + if x.fields == [] then x.blank + [CLOSE_OBJECT] else FieldsFrom(x, 0)
  {
    hide ItemsFrom, FieldsFrom;
  }

  /** A value with blanks around it, up to the byte behind them. */
  lemma {:induction false} ItemRead(c: seq<byte>, i: nat, x: Item, v: Json, depth: nat)
    requires ItemFits(x, v, depth)
    requires At(c, i, ItemText(x)) && i + |ItemText(x)| < |c| && c[i + |ItemText(x)|] in {COMMA, CLOSE_ARRAY, CLOSE_OBJECT}
    ensures var e := i + |x.before| + |Written(x.value)|;
            Value(c, Skip(c, i), depth) == Ok(v, e) && Skip(c, e) == i + |ItemText(x)|
    ensures var p := Skip(c, i); i <= p < |c| && Skip(c, p) == p && c[p] != CLOSE_ARRAY && c[p] != CLOSE_OBJECT
    decreases x, 4
  {
    hide Value, Skip, Written, White, At, Stops, Proper, Means, ItemText;
    WrittenBegins(x.value, depth);
    ItemLayout(c, i, x);
    var a := i + |x.before|;
    SkipBlanks(c, i, x.before);
    var e := a + |Written(x.value)|;
    SkipBlanks(c, e, x.after);
    StopsAfter(c, e, x.after);
    SyntaxRead(c, a, x.value, v, depth);
  }

  lemma ItemLayout(c: seq<byte>, i: nat, x: Item)
    requires At(c, i, ItemText(x)) && Written(x.value) != []
    ensures var a := i + |x.before|;
            var e := a + |Written(x.value)|;
            && At(c, i, x.before) && At(c, a, Written(x.value)) && At(c, e, x.after) && c[a] == Written(x.value)[0]
            && e + |x.after| == i + |ItemText(x)|
  {
    hide Written;
    var w := Written(x.value);
    AtSplit(c, i, x.before, w + x.after);
    AtSplit(c, i + |x.before|, w, x.after);
    Shown(c, i + |x.before|, w);
    assert c[i + |x.before| + 0] == w[0];
  }

  lemma StopsAfter(c: seq<byte>, e: nat, blank: seq<byte>)
    requires White(blank) && At(c, e, blank) && e + |blank| < |c| && c[e + |blank|] in {COMMA, CLOSE_ARRAY, CLOSE_OBJECT}
    ensures Stops(c, e)
  {
    Shown(c, e, blank);
    if blank != [] {
      assert c[e + 0] == blank[0];
    }
  }

  lemma ItemsSplit(x: Syntax, k: nat)
    requires x.List? && k < |x.items|
    ensures ItemsFrom(x, k) == ItemText(x.items[k]) + if k + 1 < |x.items| then [COMMA] + ItemsFrom(x, k + 1) else [CLOSE_ARRAY]
  {
    hide ItemText;
  }

  lemma BlankRead(c: seq<byte>, i: nat, blank: seq<byte>, close: byte)
    requires White(blank) && At(c, i, blank + [close]) && close > 32
    ensures var p := Skip(c, i); p == i + |blank| && p < |c| && c[p] == close
  {
    AtSplit(c, i, blank, [close]);
    Shown(c, i + |blank|, [close]);
    assert c[i + |blank| + 0] == close;
    SkipBlanks(c, i, blank);
  }

  lemma SameFrom(c: seq<byte>, i: nat, p: nat, depth: nat)
    requires Skip(c, i) == Skip(c, p)
    ensures Elements(c, i, depth, []) == Elements(c, p, depth, [])
  {
    hide Elements, Skip;
    ElementsStep(c, i, depth, []);
    ElementsStep(c, p, depth, []);
  }

  lemma {:induction false} ListRead(c: seq<byte>, i: nat, x: Syntax, v: Json, depth: nat)
    requires x.List? && Proper(x, depth) && Means(x, v, depth) && At(c, i, Written(x))
    ensures ArrayAt(c, i, depth) == Ok(v, i + |Written(x)|)
    decreases x, 2
  {
    hide Value, Elements, Skip, White, ItemsFrom, Proper, Means, ItemFits, Written;
    AllFit(x, v, depth);
    ListText(x);
    AtSplit(c, i, [OPEN_ARRAY], if x.items == [] then x.blank + [CLOSE_ARRAY] else ItemsFrom(x, 0));
    Shown(c, i, [OPEN_ARRAY]);
    if x.items == [] {
      BlankRead(c, i + 1, x.blank, CLOSE_ARRAY);
      assert v == Array([]);
    } else {
      ItemsRead(c, i + 1, i + 1, x, v, 0, depth + 1);
      SameFrom(c, i + 1, Skip(c, i + 1), depth + 1);
      assert v.items[..0] == [];
    }
  }

  lemma ItemsLayout(c: seq<byte>, j: nat, x: Syntax, k: nat)
    requires x.List? && k < |x.items| && At(c, j, ItemsFrom(x, k))
    ensures var e := j + |ItemText(x.items[k])|;
            && At(c, j, ItemText(x.items[k])) && e < |c|
            && (if k + 1 < |x.items| then
                  c[e] == COMMA && At(c, e + 1, ItemsFrom(x, k + 1)) && e + 1 + |ItemsFrom(x, k + 1)| == j + |ItemsFrom(x, k)|
                else c[e] == CLOSE_ARRAY && e + 1 == j + |ItemsFrom(x, k)|)
  {
    hide ItemsFrom, ItemText;
    ItemsSplit(x, k);
    var t := ItemText(x.items[k]);
    var rest := if k + 1 < |x.items| then [COMMA] + ItemsFrom(x, k + 1) else [CLOSE_ARRAY];
    AtSplit(c, j, t, rest);
    var e := j + |t|;
    Shown(c, e, rest);
    assert c[e + 0] == rest[0];
    if k + 1 < |x.items| {
      AtSplit(c, e, [COMMA], ItemsFrom(x, k + 1));
    }
  }

  /** The elements from number `k` on; the text begins at `j`, as seen from `i`. */
  lemma {:induction false} ItemsRead(c: seq<byte>, i: nat, j: nat, x: Syntax, v: Json, k: nat, depth: nat)
    requires x.List? && k < |x.items| && v.Array? && |v.items| == |x.items|
    requires forall m :: 0 <= m < |x.items| ==> ItemFits(x.items[m], v.items[m], depth)
    requires At(c, j, ItemsFrom(x, k)) && Skip(c, i) == Skip(c, j)
    ensures Elements(c, i, depth, v.items[..k]) == Ok(v, j + |ItemsFrom(x, k)|)
    ensures var p := Skip(c, j); j <= p < |c| && Skip(c, p) == p && c[p] != CLOSE_ARRAY
    decreases x, 1, |x.items| - k
  {
    hide Value, Elements, Skip, White, ItemsFrom, ItemText, ItemFits, At;
    ItemsLayout(c, j, x, k);
    var e := j + |ItemText(x.items[k])|;
    ItemRead(c, j, x.items[k], v.items[k], depth);
    ElementsStep(c, i, depth, v.items[..k]);
    assert v.items[..k] + [v.items[k]] == v.items[..k + 1];
    if k + 1 < |x.items| {
      ItemsRead(c, e + 1, e + 1, x, v, k + 1, depth);
    } else {
      assert v.items[..k + 1] == v.items && Array(v.items) == v;
    }
  }

  lemma FieldsSplit(x: Syntax, k: nat)
    requires x.Record? && k < |x.fields|
    ensures FieldsFrom(x, k) == FieldText(x.fields[k]) + if k + 1 < |x.fields| then [COMMA] + FieldsFrom(x, k + 1) else [CLOSE_OBJECT]
  {
    hide FieldText;
  }

  lemma {:induction false} RecordRead(c: seq<byte>, i: nat, x: Syntax, v: Json, depth: nat)
    requires x.Record? && Proper(x, depth) && Means(x, v, depth) && At(c, i, Written(x))
    ensures ObjectAt(c, i, depth) == Ok(v, i + |Written(x)|)
    decreases x, 2
  {
    hide Value, Members, MemberAt, Skip, White, FieldsFrom, Proper, Means, FieldFits, Written;
    AllFit(x, v, depth);
    ListText(x);
    AtSplit(c, i, [OPEN_OBJECT], if x.fields == [] then x.blank + [CLOSE_OBJECT] else FieldsFrom(x, 0));
    Shown(c, i, [OPEN_OBJECT]);
    if x.fields == [] {
      BlankRead(c, i + 1, x.blank, CLOSE_OBJECT);
      assert v == Object([]);
    } else {
      var p := Skip(c, i + 1);
      FirstField(x, v, depth + 1, 0);
      FieldStart(c, i + 1, x, 0);
      FieldsRead(c, p, i + 1, x, v, 0, depth + 1);
      assert v.members[..0] == [];
    }
  }

  /** A member begins with a quote behind its blanks. */
  lemma FieldStart(c: seq<byte>, j: nat, x: Syntax, k: nat)
    requires x.Record? && k < |x.fields| && White(x.fields[k].before) && At(c, j, FieldsFrom(x, k))
    ensures var p := j + |x.fields[k].before|;
            Skip(c, j) == p && p < |c| && c[p] == QUOTE && Skip(c, p) == p && j < |c|
  {
    hide Skip, White, FieldsFrom, ItemText, UnitsText;
    FieldsSplit(x, k);
    var f := x.fields[k];
    var rest := FieldsFrom(x, k)[|f.before|..];
    assert FieldsFrom(x, k) == f.before + rest && rest[0] == QUOTE;
    AtSplit(c, j, f.before, rest);
    Shown(c, j + |f.before|, rest);
    assert c[j + |f.before| + 0] == QUOTE;
    SkipBlanks(c, j, f.before);
  }

  predicate FieldFits(f: Field, m: Member, depth: nat) {
    && White(f.before) && UnitsOk(f.name) && White(f.colon) && ItemFits(f.item, m.value, depth)
    && Holds(m.key, UnitsMeaning(f.name))
  }

  lemma FirstField(x: Syntax, v: Json, depth: nat, k: nat)
    requires x.Record? && v.Object? && k < |x.fields| == |v.members| && FieldFits(x.fields[k], v.members[k], depth)
    ensures White(x.fields[k].before)
  {
  }

  /** The parts of a member. */
  lemma FieldLayout(c: seq<byte>, j: nat, f: Field)
    requires At(c, j, FieldText(f))
    ensures var a := j + |f.before|;
            var b := a + |Quoted(f.name)|;
            var colon := b + |f.colon|;
            && At(c, a, Quoted(f.name)) && At(c, b, f.colon) && colon < |c| && c[colon] == COLON
            && At(c, colon + 1, ItemText(f.item)) && colon + 1 + |ItemText(f.item)| == j + |FieldText(f)|
  {
    hide Quoted, ItemText;
    var tail := [COLON] + ItemText(f.item);
    var a := j + |f.before|;
    AtSplit(c, j, f.before, Quoted(f.name) + (f.colon + tail));
    AtSplit(c, a, Quoted(f.name), f.colon + tail);
    var b := a + |Quoted(f.name)|;
    AtSplit(c, b, f.colon, tail);
    var colon := b + |f.colon|;
    AtSplit(c, colon, [COLON], ItemText(f.item));
    Shown(c, colon, [COLON]);
    assert c[colon + 0] == COLON;
  }

  /** One member: name, colon and value, up to the byte behind the blanks. */
  lemma {:induction false} FieldRead(c: seq<byte>, i: nat, j: nat, f: Field, m: Member, depth: nat)
    requires FieldFits(f, m, depth)
    requires i < |c| && Skip(c, i) == j + |f.before| && At(c, j, FieldText(f))
    requires j + |FieldText(f)| < |c| && c[j + |FieldText(f)|] in {COMMA, CLOSE_OBJECT}
    ensures var r := MemberAt(c, i, depth);
            r.Ok? && r.value == m && Skip(c, r.next) == j + |FieldText(f)|
    decreases f, 5
  {
    hide Value, Skip, White, UnitsOk, UnitsMeaning, Holds, ItemText, FieldText, Quoted, StringAt, ItemFits, At;
    FieldLayout(c, j, f);
    var a := j + |f.before|;
    var b := a + |Quoted(f.name)|;
    QuotedRead(c, a, f.name, m.key);
    SkipBlanks(c, b, f.colon);
    ItemRead(c, b + |f.colon| + 1, f.item, m.value, depth);
  }

  /** The members from number `k` on; the text begins at `j`, as seen from `i`. */
  lemma {:induction false} FieldsRead(c: seq<byte>, i: nat, j: nat, x: Syntax, v: Json, k: nat, depth: nat)
    requires x.Record? && k < |x.fields| && v.Object? && |v.members| == |x.fields|
    requires forall m :: 0 <= m < |x.fields| ==> FieldFits(x.fields[m], v.members[m], depth)
    requires At(c, j, FieldsFrom(x, k)) && i < |c| && Skip(c, i) == Skip(c, j)
    ensures Members(c, i, depth, v.members[..k]) == Ok(v, j + |FieldsFrom(x, k)|)
    decreases x, 1, |x.fields| - k
  {
    hide MemberAt, Members, Skip, White, FieldsFrom, FieldText, FieldFits;
    FirstField(x, v, depth, k);
    FieldStart(c, j, x, k);
    FieldsSplit(x, k);
    var t := FieldText(x.fields[k]);
    var rest := if k + 1 < |x.fields| then [COMMA] + FieldsFrom(x, k + 1) else [CLOSE_OBJECT];
    AtSplit(c, j, t, rest);
    var e := j + |t|;
    Shown(c, e, rest);
    assert c[e + 0] == rest[0];
    FieldRead(c, i, j, x.fields[k], v.members[k], depth);
    MembersStep(c, i, depth, v.members[..k]);
    assert v.members[..k] + [v.members[k]] == v.members[..k + 1];
    if k + 1 < |x.fields| {
      AtSplit(c, e, [COMMA], FieldsFrom(x, k + 1));
      FirstField(x, v, depth, k + 1);
      FieldStart(c, e + 1, x, k + 1);
      FieldsRead(c, e + 1, e + 1, x, v, k + 1, depth);
    } else {
      assert v.members[..k + 1] == v.members && Object(v.members) == v;
    }
  }

  // ---- Whole texts -------------------------------------------------------------------------

  /** `cJSON_ParseWithLength` on any text of the grammar, with blanks and possibly a byte order mark before it:
      the value is what the text means, and what follows is not looked at. */
  method ParseSpelled(mark: bool, before: seq<byte>, x: Syntax, v: Json, rest: seq<byte>) returns (r: Outcome<Json>)
    requires White(before) && Proper(x, 0) && Means(x, v, 0)
    requires rest != [] ==> !('0' as int <= rest[0] <= '9' as int) && rest[0] !in {'+' as int, '-' as int, '.' as int, 'e' as int, 'E' as int}
    requires mark ==> |before| + |Written(x)| + |rest| >= 2
    ensures r == Ok(v, (if mark then 3 else 0) + |before| + |Written(x)|)
  {
    hide Parse, Value, Skip, Written, Proper, Means, White;
    var start: seq<byte> := if mark then [0xEF, 0xBB, 0xBF] else [];
    var c := start + (before + (Written(x) + rest));
    r := ParseWithLength(c);
    Spelled(c, mark, before, x, v, rest);
  }

  lemma Spelled(c: seq<byte>, mark: bool, before: seq<byte>, x: Syntax, v: Json, rest: seq<byte>)
    requires White(before) && Proper(x, 0) && Means(x, v, 0) && (rest != [] ==> !IsNumberByte(rest[0]))
    requires mark ==> |before| + |Written(x)| + |rest| >= 2
    requires c == (if mark then BOM else []) + (before + (Written(x) + rest))
    ensures Parse(c) == Ok(v, (if mark then 3 else 0) + |before| + |Written(x)|)
  {
    hide Value, Skip, Written, Proper, Means, White, At, Stops, Has, IsNumberByte;
    WrittenBegins(x, 0);
    var w := Written(x);
    if mark {
      PartsOf(c, BOM, before, w, rest);
      SpelledFrom(c, 3, before, x, v);
    } else {
      PartsOf(c, [], before, w, rest);
      NotMarked(c, before, w, rest);
      SpelledFrom(c, 0, before, x, v);
    }
  }

  lemma SpelledFrom(c: seq<byte>, i: nat, before: seq<byte>, x: Syntax, v: Json)
    requires White(before) && Proper(x, 0) && Means(x, v, 0)
    requires var a := i + |before|;
             && At(c, i, before) && At(c, a, Written(x)) && a + |Written(x)| <= |c|
             && Stops(c, a + |Written(x)|)
    ensures Value(c, Skip(c, i), 0) == Ok(v, i + |before| + |Written(x)|)
  {
    hide Value, Skip, Written, Proper, Means, White, Stops;
    WrittenBegins(x, 0);
    Shown(c, i + |before|, Written(x));
    assert c[i + |before| + 0] == Written(x)[0];
    SkipBlanks(c, i, before);
    SyntaxRead(c, i + |before|, x, v, 0);
  }

  lemma PartsOf(c: seq<byte>, start: seq<byte>, before: seq<byte>, w: seq<byte>, rest: seq<byte>)
    requires c == start + (before + (w + rest)) && w != [] && (rest != [] ==> !IsNumberByte(rest[0]))
    ensures var a := |start| + |before|;
            && At(c, |start|, before) && At(c, a, w) && Stops(c, a + |w|) && a + |w| <= |c| && c[a] == w[0]
            && (start == BOM ==> Has(c, 0, BOM)) && |c| == |start| + |before| + |w| + |rest|
  {
    var a := |start| + |before|;
    assert c[|start|..a] == before && c[a..a + |w|] == w && c[0..|start|] == start;
    assert rest != [] ==> c[a + |w|] == rest[0];
  }

  lemma NotMarked(c: seq<byte>, before: seq<byte>, w: seq<byte>, rest: seq<byte>)
    requires c == [] + (before + (w + rest)) && White(before) && w != [] && w[0] != 0xEF
    ensures !Has(c, 0, BOM)
  {
    assert c[0] == if before == [] then w[0] else before[0];
    NotHas(c, 0, BOM);
  }
}
