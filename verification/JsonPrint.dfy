/** The growable print buffer of cJSON and the printer on top of it. */
module JsonPrint {
  import opened Bits
  import opened JsonText

  // ---- The text has no terminator in it ----------------------------------------------------

  predicate NoNul(t: seq<byte>) {
    forall k :: 0 <= k < |t| ==> t[k] != 0
  }

  lemma {:induction false} EscapedNoNul(s: seq<byte>)
    requires NoNul(s)
    ensures NoNul(Escaped(s))
  {
    if s != [] {
      EscapedNoNul(s[1..]);
      OneNoNul(s[0]);
    }
  }

  lemma OneNoNul(b: byte)
    requires b != 0
    ensures NoNul(EscapeOf(b))
  {
  }

  lemma StringNoNul(s: cstring)
    ensures NoNul(StringText(s))
  {
    EscapedNoNul(s);
  }

  lemma NumberNoNul(n: int)
    ensures NoNul(NumberText(n)) && |NumberText(n)| >= 1
  {
  }

  lemma {:induction false} TextNoNul(v: Json, depth: nat, fmt: bool)
    ensures NoNul(Text(v, depth, fmt)) && |Text(v, depth, fmt)| >= 1
    decreases v
  {
    hide StringText, NumberText, ArrayRest, ObjectRest;
    match v {
      case Number(n) => NumberNoNul(n);
      case Str(s) => StringNoNul(s); assert |StringText(s)| >= 2 by { StringLength(s); }
      case Array(_) => ArrayNoNul(v, 0, depth + 1, fmt);
      case Object(_) => ObjectNoNul(v, 0, depth + 1, fmt);
      case _ =>
    }
  }

  lemma StringLength(s: seq<byte>)
    ensures |StringText(s)| == |Escaped(s)| + 2
  {
  }

  lemma {:induction false} ArrayNoNul(v: Json, k: nat, depth: nat, fmt: bool)
    requires v.Array? && k <= |v.items|
    ensures NoNul(ArrayRest(v, k, depth, fmt)) && |ArrayRest(v, k, depth, fmt)| >= 1
    decreases v, |v.items| - k
  {
    hide Text;
    if k < |v.items| {
      TextNoNul(v.items[k], depth, fmt);
      ArrayNoNul(v, k + 1, depth, fmt);
    }
  }

  lemma {:induction false} ObjectNoNul(v: Json, k: nat, depth: nat, fmt: bool)
    requires v.Object? && k <= |v.members| && depth > 0
    ensures NoNul(ObjectRest(v, k, depth, fmt)) && |ObjectRest(v, k, depth, fmt)| >= 1
    decreases v, |v.members| - k
  {
    hide Text, StringText;
    if k < |v.members| {
      StringNoNul(v.members[k].key);
      TextNoNul(v.members[k].value, depth, fmt);
      ObjectNoNul(v, k + 1, depth, fmt);
    }
  }

  function Width(v: Json): nat {
    if v.Array? then |v.items| else if v.Object? then |v.members| else 0
  }

  // ---- The buffer --------------------------------------------------------------------------

  class PrintBuffer {
    var buffer: array<byte>
    var length: nat
    var offset: nat
    var depth: nat
    const noalloc: bool
    const format: bool

    /** The end of the last region reserved by `Ensure`. */
    ghost var region: nat

    ghost predicate Valid()
      reads this`buffer, this`length, this`offset, this`region
    {
      && buffer.Length == length <= INT_MAX && region <= length
      && (offset < length || (offset == 0 && length == 0))
    }

    /** The size beyond which printing fails. */
    ghost function Limit(): nat
      reads this`length
    {
      if noalloc then length else INT_MAX
    }

    /** The text up to the offset. */
    ghost function Written(): seq<byte>
      reads this`buffer, this`offset, buffer
      requires offset <= buffer.Length
    {
      buffer[..offset]
    }

    /** The buffer as a caller sets it up: an own one that may grow, or one that must do. */
    constructor (buffer: array<byte>, noalloc: bool, format: bool)
      requires buffer.Length <= INT_MAX
      ensures Valid() && this.buffer == buffer && this.noalloc == noalloc && this.format == format
      ensures offset == 0 && depth == 0 && length == buffer.Length
    {
      this.buffer, length, offset, depth := buffer, buffer.Length, 0, 0;
      this.noalloc, this.format := noalloc, format;
      region := 0;
    }

    /** `ensure`: room for `needed` bytes and one more at the offset. */
    method Ensure(needed: nat) returns (ok: bool)
      requires Valid()
      modifies `buffer, `length, `region
      ensures Valid() && Limit() == old(Limit())
      ensures ok <==> offset + needed + 1 <= Limit()
      ensures ok ==> region == offset + needed < length
      ensures buffer == old(buffer) || (!noalloc && fresh(buffer))
      ensures old(length) <= length && buffer[..old(length)] == old(buffer[..])
    {
      if length > 0 && offset >= length {
        assert false;
      }
      if needed > INT_MAX {
        return false;
      }
      var total := needed + offset + 1;
      if total <= length {
        region := offset + needed;
        return true;
      }
      if noalloc {
        return false;
      }
      var newsize;
      if total > INT_MAX / 2 {
        if total <= INT_MAX {
          newsize := INT_MAX;
        } else {
          return false;
        }
      } else {
        newsize := total * 2;
      }
      var newbuffer := new byte[newsize];
      forall k | 0 <= k < length {
        newbuffer[k] := buffer[k];
      }
      assert newbuffer[..length] == buffer[..];
      length := newsize;
      buffer := newbuffer;
      region := offset + needed;
      return true;
    }

    /** The buffer begins with `t`. */
    ghost predicate Shows(t: seq<byte>)
      reads this`buffer, buffer
    {
      |t| <= buffer.Length && buffer[..|t|] == t
    }

    /** Stores through an output pointer at `i`, all inside the reserved region. */
    method Write(i: nat, bytes: seq<byte>, ghost t: seq<byte>)
      requires Valid() && Shows(t) && |t| == i && i + |bytes| <= region
      modifies buffer
      ensures Shows(t + bytes)
    {
      for k := 0 to |bytes|
        invariant buffer[..i] == t
        invariant forall m :: 0 <= m < k ==> buffer[i + m] == bytes[m]
      {
        buffer[i + k] := bytes[k];
      }
    }

    lemma ShowsLess(t: seq<byte>, u: seq<byte>)
      requires Shows(t + u)
      ensures Shows(t)
    {
      assert buffer[..|t|] == buffer[..|t + u|][..|t|];
    }

    /** After a value: its text follows `prefix`, a terminator follows the text, and the offset is
        somewhere in between. */
    ghost predicate Ended(prefix: seq<byte>, text: seq<byte>)
      reads this, buffer
    {
      var end := |prefix| + |text|;
      && Valid() && |prefix| <= offset <= end < length
      && Shows(prefix + text) && buffer[end] == 0
    }

    lemma Finished(prefix: seq<byte>, text: seq<byte>)
      requires Valid() && Shows(prefix + text + [0]) && |prefix| <= offset <= |prefix| + |text|
      ensures Ended(prefix, text)
    {
      var all := prefix + text + [0];
      assert buffer[..|all|][|all| - 1] == 0;
      ShowsLess(prefix + text, [0]);
    }

    /** `update_offset`. */
    method UpdateOffset(ghost prefix: seq<byte>, ghost text: seq<byte>)
      requires Ended(prefix, text) && NoNul(text)
      modifies `offset
      ensures Valid() && offset == |prefix| + |text| && Written() == prefix + text
    {
      ghost var end := |prefix| + |text|;
      forall k | offset <= k < end
        ensures buffer[k] != 0
      {
        assert (prefix + text)[k] == text[k - |prefix|];
        assert buffer[..end][k] == buffer[k];
      }
      var strlen := 0;
      while buffer[offset + strlen] != 0
        invariant 0 <= strlen && offset + strlen <= end
        decreases end - strlen
      {
        strlen := strlen + 1;
      }
      offset := offset + strlen;
    }

    // ---- Strings ---------------------------------------------------------------------------

    /** `print_string_ptr`. */
    method PrintString(input: cstring) returns (ok: bool)
      requires Valid()
      modifies `buffer, `length, `region, buffer
      ensures Valid() && Limit() == old(Limit())
      ensures ok <==> offset + |StringText(input)| + 2 <= Limit()
      ensures ok ==> Ended(old(Written()), StringText(input))
      ensures buffer == old(buffer) || (!noalloc && fresh(buffer))
    {
      hide Escaped, Shows, Ended;
      ghost var prefix := Written();
      var escape_characters := CountEscapes(input);
      var output_length := |input| + escape_characters;
      ok := Ensure(output_length + 3);
      if !ok {
        return;
      }
      StillShows(prefix);
      Write(offset, [QUOTE], prefix);
      if escape_characters == 0 {
        NothingEscaped(input);
        Write(offset + 1, input, prefix + [QUOTE]);
      } else {
        WriteEscaped(input, prefix + [QUOTE]);
      }
      Write(offset + output_length + 1, [QUOTE, 0], prefix + [QUOTE] + Escaped(input));
      assert prefix + [QUOTE] + Escaped(input) + [QUOTE, 0] == prefix + StringText(input) + [0];
      Finished(prefix, StringText(input));
    }

    lemma StillShows(prefix: seq<byte>)
      requires offset <= buffer.Length && prefix == Written()
      ensures Shows(prefix)
    {
    }

    /** The copying loop: ordinary bytes as they are, the others escaped. */
    method WriteEscaped(input: cstring, ghost prefix: seq<byte>)
      requires Valid() && offset + 1 == |prefix| && |prefix| + |Escaped(input)| + 2 <= region && Shows(prefix)
      modifies buffer
      ensures Shows(prefix + Escaped(input))
    {
      hide Escaped, EscapeOf, Shows;
      var output := offset + 1;
      EscapedEmpty(input);
      assert prefix + [] == prefix;
      for k := 0 to |input|
        invariant output == |prefix| + |Escaped(input[..k])| && Shows(prefix + Escaped(input[..k]))
      {
        EscapedMore(input, k);
        Terminated(input, k);
        output := WriteOne(input[k], output, prefix + Escaped(input[..k]));
        assert prefix + Escaped(input[..k]) + EscapeOf(input[k]) == prefix + Escaped(input[..k + 1]);
      }
      assert input[..|input|] == input;
    }

    method WriteOne(b: byte, output: nat, ghost t: seq<byte>) returns (next: nat)
      requires Valid() && |t| == output && Shows(t) && output + |EscapeOf(b)| + 1 <= region
      modifies buffer
      ensures next == output + |EscapeOf(b)| && Shows(t + EscapeOf(b))
    {
      hide EscapeLetter, HexDigit, Shows;
      next := output;
      if b > 31 && b != QUOTE && b != BACKSLASH {
        Ordinary(b);
        Write(next, [b], t);
        next := next + 1;
      } else {
        Write(next, [BACKSLASH], t);
        next := next + 1;
        if EscapeLetter(b) != 0 {
          Write(next, [EscapeLetter(b)], t + [BACKSLASH]);
          assert t + [BACKSLASH] + [EscapeLetter(b)] == t + EscapeOf(b);
          next := next + 1;
        } else {
          Unordinary(b);
          // sprintf also stores a terminator, which the next store replaces
          Write(next, [117, 48, 48, HexDigit(b / 16), HexDigit(b % 16), 0], t + [BACKSLASH]);
          assert t + [BACKSLASH] + [117, 48, 48, HexDigit(b / 16), HexDigit(b % 16), 0] == t + EscapeOf(b) + [0];
          ShowsLess(t + EscapeOf(b), [0]);
          next := next + 5;
        }
      }
    }

    // ---- Values ----------------------------------------------------------------------------

    /** The buffer holds `t`, and the offset is behind it. */
    ghost predicate Holding(t: seq<byte>)
      reads this`buffer, this`length, this`offset, this`region, buffer
    {
      Valid() && offset == |t| && Shows(t)
    }

    /** Reserves room, stores `bytes` (with a terminator, if wanted) and advances the offset past them. */
    method Append(bytes: seq<byte>, terminated: bool, needed: nat, ghost t: seq<byte>) returns (ok: bool)
      requires Holding(t) && |bytes| + (if terminated then 1 else 0) <= needed
      modifies `buffer, `length, `region, `offset, buffer
      ensures Valid() && Limit() == old(Limit())
      ensures ok <==> |t| + needed + 1 <= Limit()
      ensures ok ==> Holding(t + bytes)
      ensures buffer == old(buffer) || (!noalloc && fresh(buffer))
    {
      hide Shows;
      Covers(t);
      ok := Ensure(needed);
      if !ok {
        return;
      }
      StillShows(t);
      Write(offset, bytes, t);
      if terminated {
        Write(offset + |bytes|, [0], t + bytes);
        ShowsLess(t + bytes, [0]);
      }
      offset := offset + |bytes|;
    }

    lemma Covers(t: seq<byte>)
      requires Holding(t)
      ensures Valid() && offset == |t| && Written() == t
    {
    }

    /** `print_number` for an integer. */
    method PrintNumber(n: int32) returns (ok: bool)
      requires Valid()
      modifies `buffer, `length, `region, `offset, buffer
      ensures Valid() && Limit() == old(Limit())
      ensures ok <==> old(offset) + |NumberText(n)| + 2 <= Limit()
      ensures ok ==> Ended(old(Written()), NumberText(n))
      ensures buffer == old(buffer) || (!noalloc && fresh(buffer))
    {
      hide Shows, Ended;
      ghost var prefix := Written();
      var number_buffer := NumberText(n);
      ok := Ensure(|number_buffer| + 1);
      if !ok {
        return;
      }
      StillShows(prefix);
      Write(offset, number_buffer + [0], prefix);
      assert prefix + (number_buffer + [0]) == prefix + number_buffer + [0];
      offset := offset + |number_buffer|;
      Finished(prefix, number_buffer);
    }

    /** A literal, copied with its terminator. */
    method PrintLiteral(text: seq<byte>) returns (ok: bool)
      requires Valid()
      modifies `buffer, `length, `region, buffer
      ensures Valid() && Limit() == old(Limit())
      ensures ok <==> offset + |text| + 2 <= Limit()
      ensures ok ==> Ended(old(Written()), text)
      ensures buffer == old(buffer) || (!noalloc && fresh(buffer))
    {
      hide Shows, Ended;
      ghost var prefix := Written();
      ok := Ensure(|text| + 1);
      if !ok {
        return;
      }
      StillShows(prefix);
      Write(offset, text + [0], prefix);
      assert prefix + (text + [0]) == prefix + text + [0];
      Finished(prefix, text);
    }

    /** `print_value`: it succeeds exactly when the value is not nested too deeply and its text with two
        more bytes fits, and then the text is that of the pure printer, whatever the buffer had to do. */
    method PrintValue(v: Json) returns (ok: bool)
      requires Valid()
      modifies `buffer, `length, `region, `offset, `depth, buffer
      ensures Valid() && Limit() == old(Limit())
      ensures ok <==> Nests(v, old(depth)) && old(offset) + |Text(v, old(depth), format)| + 2 <= Limit()
      ensures ok ==> Ended(old(Written()), Text(v, old(depth), format)) && depth == old(depth)
      ensures buffer == old(buffer) || (!noalloc && fresh(buffer))
      decreases v, Width(v) + 2
    {
      hide Ended, StringText, NumberText, ArrayRest, ObjectRest;
      match v {
        case Null => ok := PrintLiteral(NULL_TEXT);
        case Bool(b) => ok := PrintLiteral(if b then TRUE_TEXT else FALSE_TEXT);
        case Number(n) => ok := PrintNumber(n);
        case Str(s) => ok := PrintString(s);
        case Array(_) => ok := PrintArray(v);
        case Object(_) => ok := PrintObject(v);
      }
    }

    /** `print_array`. */
    method PrintArray(v: Json) returns (ok: bool)
      requires Valid() && v.Array?
      modifies `buffer, `length, `region, `offset, `depth, buffer
      ensures Valid() && Limit() == old(Limit())
      ensures ok <==> Nests(v, old(depth)) && old(offset) + |Text(v, old(depth), format)| + 2 <= Limit()
      ensures ok ==> Ended(old(Written()), Text(v, old(depth), format)) && depth == old(depth)
      ensures buffer == old(buffer) || (!noalloc && fresh(buffer))
      decreases v, |v.items| + 1
    {
      hide Ended, Holding, ArrayRest, Text;
      ghost var prefix, text := Written(), Text(v, depth, format);
      ArrayText(v, depth, format);
      if depth >= NESTING_LIMIT {
        return false;
      }
      HoldsWritten();
      ok := Append([OPEN_ARRAY], false, 1, prefix);
      RestLength(v, 0, depth + 1, format);
      if !ok {
        return;
      }
      depth := depth + 1;
      ghost var t := prefix + [OPEN_ARRAY];
      var k := 0;
      while k < |v.items|
        invariant 0 <= k <= |v.items| && depth == old(depth) + 1 && Holding(t) && Valid() && Limit() == old(Limit())
        invariant |prefix| <= |t| && t + ArrayRest(v, k, depth, format) == prefix + text
        invariant forall m :: 0 <= m < k ==> Nests(v.items[m], depth)
        invariant buffer == old(buffer) || (!noalloc && fresh(buffer))
      {
        ElementStep(v, k, depth, format, t);
        ok := PrintElement(v, k, t);
        if !ok {
          return;
        }
        t := t + Text(v.items[k], depth, format) + Separator(k + 1 < |v.items|, format);
        k := k + 1;
      }
      LastElement(v, depth, format);
      ok := Close([CLOSE_ARRAY], 2, t, prefix, text);
    }

    /** A child's value, and the offset moved behind it. */
    method PrintChild(v: Json, ghost t: seq<byte>) returns (ok: bool)
      requires Holding(t)
      modifies `buffer, `length, `region, `offset, `depth, buffer
      ensures Valid() && Limit() == old(Limit())
      ensures ok <==> Nests(v, old(depth)) && |t| + |Text(v, old(depth), format)| + 2 <= Limit()
      ensures ok ==> Holding(t + Text(v, old(depth), format)) && depth == old(depth)
      ensures buffer == old(buffer) || (!noalloc && fresh(buffer))
      decreases v, Width(v) + 3
    {
      hide Ended, Text, Shows, Holding;
      Covers(t);
      ghost var x := Text(v, depth, format);
      ok := PrintValue(v);
      if ok {
        TextNoNul(v, depth, format);
        UpdateOffset(t, x);
        HoldsWritten();
      }
    }

    /** A name, and the offset moved behind it. */
    method PrintName(key: cstring, ghost t: seq<byte>) returns (ok: bool)
      requires Holding(t)
      modifies `buffer, `length, `region, `offset, buffer
      ensures Valid() && Limit() == old(Limit())
      ensures ok <==> |t| + |StringText(key)| + 2 <= Limit()
      ensures ok ==> Holding(t + StringText(key))
      ensures buffer == old(buffer) || (!noalloc && fresh(buffer))
    {
      hide Ended, StringText, Shows, Holding;
      Covers(t);
      ok := PrintString(key);
      if ok {
        StringNoNul(key);
        UpdateOffset(t, StringText(key));
        HoldsWritten();
      }
    }

    /** One turn of the loop over the elements. */
    method PrintElement(v: Json, k: nat, ghost t: seq<byte>) returns (ok: bool)
      requires v.Array? && k < |v.items| && Holding(t)
      modifies `buffer, `length, `region, `offset, `depth, buffer
      ensures Valid() && Limit() == old(Limit())
      ensures var x, sep := Text(v.items[k], old(depth), format), Separator(k + 1 < |v.items|, format);
              && (ok <==> Nests(v.items[k], old(depth)) && |t| + |x| + |sep| + 2 <= Limit())
              && (ok ==> Holding(t + x + sep) && depth == old(depth))
      ensures buffer == old(buffer) || (!noalloc && fresh(buffer))
      decreases v, k
    {
      hide Ended, Text, Shows, Holding;
      ghost var x := Text(v.items[k], depth, format);
      ok := PrintChild(v.items[k], t);
      if !ok {
        return;
      }
      if k + 1 < |v.items| {
        var length := if format then 2 else 1;
        ok := Append(if format then [COMMA, SPACE] else [COMMA], true, length + 1, t + x);
      } else {
        assert t + x + [] == t + x;
      }
    }

    /** `print_object`. */
    method PrintObject(v: Json) returns (ok: bool)
      requires Valid() && v.Object?
      modifies `buffer, `length, `region, `offset, `depth, buffer
      ensures Valid() && Limit() == old(Limit())
      ensures ok <==> Nests(v, old(depth)) && old(offset) + |Text(v, old(depth), format)| + 2 <= Limit()
      ensures ok ==> Ended(old(Written()), Text(v, old(depth), format)) && depth == old(depth)
      ensures buffer == old(buffer) || (!noalloc && fresh(buffer))
      decreases v, |v.members| + 1
    {
      hide Ended, Holding, ObjectRest, Text, KeyText, Tabs;
      ghost var prefix, text := Written(), Text(v, depth, format);
      ObjectText(v, depth, format);
      if depth >= NESTING_LIMIT {
        return false;
      }
      HoldsWritten();
      var head: seq<byte> := if format then [OPEN_OBJECT, NEWLINE] else [OPEN_OBJECT];
      ok := Append(head, false, |head| + 1, prefix);
      MembersLength(v, 0, depth + 1, format);
      if !ok {
        return;
      }
      depth := depth + 1;
      ghost var t := prefix + head;
      var k := 0;
      while k < |v.members|
        invariant 0 <= k <= |v.members| && depth == old(depth) + 1 && Holding(t) && Valid() && Limit() == old(Limit())
        invariant |prefix| <= |t| && t + ObjectRest(v, k, depth, format) == prefix + text
        invariant forall m :: 0 <= m < k ==> Nests(v.members[m].value, depth)
        invariant buffer == old(buffer) || (!noalloc && fresh(buffer))
      {
        MemberStep(v, k, depth, format, t);
        ok := PrintMember(v, k, t);
        if !ok {
          return;
        }
        t := t + MemberText(v, k, depth, format);
        k := k + 1;
      }
      LastMember(v, depth, format);
      var foot := (if format then Tabs(depth - 1) else []) + [CLOSE_OBJECT];
      ok := Close(foot, if format then depth + 1 else 2, t, prefix, text);
    }

    /** One turn of the loop over the members. */
    method PrintMember(v: Json, k: nat, ghost t: seq<byte>) returns (ok: bool)
      requires v.Object? && k < |v.members| && Holding(t) && depth > 0
      modifies `buffer, `length, `region, `offset, `depth, buffer
      ensures Valid() && Limit() == old(Limit())
      ensures ok <==> Nests(v.members[k].value, old(depth)) && |t| + |MemberText(v, k, old(depth), format)| + 2 <= Limit()
      ensures ok ==> Holding(t + MemberText(v, k, old(depth), format)) && depth == old(depth)
      ensures buffer == old(buffer) || (!noalloc && fresh(buffer))
      decreases v, k
    {
      hide Ended, Text, KeyText, Shows, Holding;
      var m := v.members[k];
      ghost var key, x := KeyText(m.key, depth, format), Text(m.value, depth, format);
      TextNoNul(m.value, depth, format);
      ok := PrintKey(m.key, t);
      if !ok {
        return;
      }
      ok := PrintChild(m.value, t + key);
      if !ok {
        return;
      }
      var length := (if format then 1 else 0) + (if k + 1 < |v.members| then 1 else 0);
      ok := Append(MemberEnd(k + 1 < |v.members|, format), true, length + 1, t + key + x);
      assert t + key + x + MemberEnd(k + 1 < |v.members|, format) == t + MemberText(v, k, depth, format);
    }

    /** The indentation, the name and the colon. */
    method PrintKey(key: cstring, ghost t: seq<byte>) returns (ok: bool)
      requires Holding(t)
      modifies `buffer, `length, `region, `offset, buffer
      ensures Valid() && Limit() == old(Limit())
      ensures ok <==> |t| + |KeyText(key, depth, format)| + 1 <= Limit()
      ensures ok ==> Holding(t + KeyText(key, depth, format))
      ensures buffer == old(buffer) || (!noalloc && fresh(buffer))
    {
      hide Ended, StringText, Shows, Holding, Tabs;
      ghost var text := StringText(key);
      StringLength(key);
      ghost var u := t;
      if format {
        ok := Append(Tabs(depth), false, depth, t);
        if !ok {
          return;
        }
        u := t + Tabs(depth);
      }
      ok := PrintName(key, u);
      if !ok {
        return;
      }
      var colon: seq<byte> := if format then [COLON, TAB] else [COLON];
      ok := Append(colon, false, |colon|, u + text);
      assert u + text + colon == t + KeyText(key, depth, format);
    }

    lemma HoldsWritten()
      requires Valid()
      ensures Holding(Written())
    {
    }

    /** The closing bracket, its terminator, and one level up; the offset stays in front of it. */
    method Close(bytes: seq<byte>, needed: nat, ghost t: seq<byte>, ghost prefix: seq<byte>, ghost text: seq<byte>) returns (ok: bool)
      requires Holding(t) && needed == |bytes| + 1 && depth > 0 && |prefix| <= |t| && t + bytes == prefix + text
      modifies `buffer, `length, `region, `depth, buffer
      ensures Valid() && Limit() == old(Limit())
      ensures ok <==> |prefix| + |text| + 2 <= Limit()
      ensures ok ==> Ended(prefix, text) && depth == old(depth) - 1
      ensures buffer == old(buffer) || (!noalloc && fresh(buffer))
    {
      hide Shows, Ended;
      Covers(t);
      assert |t| + |bytes| == |t + bytes|;
      ok := Ensure(needed);
      if !ok {
        return;
      }
      StillShows(t);
      Write(offset, bytes, t);
      Write(offset + |bytes|, [0], t + bytes);
      depth := depth - 1;
      Finished(prefix, text);
    }
  }

  /** The counting loop of `print_string_ptr`. */
  method CountEscapes(input: cstring) returns (n: nat)
    ensures |input| + n == |Escaped(input)|
  {
    hide Escaped, EscapeLetter;
    EscapedEmpty(input);
    n := 0;
    for k := 0 to |input|
      invariant k + n == |Escaped(input[..k])|
    {
      EscapedMore(input, k);
      var b := input[k];
      if EscapeLetter(b) != 0 {
        n := n + 1;
      } else if b < 32 {
        n := n + 5;
      }
    }
    assert input[..|input|] == input;
  }

  lemma EscapedEmpty(s: seq<byte>)
    ensures s[..0] == [] && Escaped([]) == []
  {
  }

  lemma {:induction false} EscapedMore(s: seq<byte>, k: nat)
    requires k < |s|
    ensures Escaped(s[..k + 1]) == Escaped(s[..k]) + EscapeOf(s[k])
    decreases k
  {
    hide EscapeOf;
    if k == 0 {
      assert s[..1] == [s[0]] && s[..0] == [] && [s[0]][1..] == [];
      assert Escaped([s[0]]) == EscapeOf(s[0]) + Escaped([]);
    } else {
      EscapedMore(s[1..], k - 1);
      assert s[..k + 1][1..] == s[1..][..k] && s[..k][1..] == s[1..][..k - 1];
    }
  }

  /** A prefix is no longer than the whole. */
  lemma {:induction false} Terminated(s: seq<byte>, k: nat)
    requires k < |s|
    ensures |Escaped(s[..k])| + |EscapeOf(s[k])| <= |Escaped(s)|
    decreases |s| - k
  {
    hide EscapeOf, Escaped;
    EscapedMore(s, k);
    if k + 1 < |s| {
      Terminated(s, k + 1);
    } else {
      assert s[..k + 1] == s;
    }
  }

  lemma Ordinary(b: byte)
    requires b > 31 && b != QUOTE && b != BACKSLASH
    ensures EscapeOf(b) == [b]
  {
  }

  lemma Unordinary(b: byte)
    requires EscapeLetter(b) == 0 && !(b > 31 && b != QUOTE && b != BACKSLASH)
    ensures b < 32
  {
  }

  lemma {:induction false} NothingEscaped(s: seq<byte>)
    requires |Escaped(s)| == |s|
    ensures Escaped(s) == s
  {
    if s != [] {
      NothingEscaped(s[1..]);
    }
  }

  // ---- Text in pieces ----------------------------------------------------------------------

  lemma ArrayText(v: Json, depth: nat, fmt: bool)
    requires v.Array?
    ensures Text(v, depth, fmt) == [OPEN_ARRAY] + ArrayRest(v, 0, depth + 1, fmt)
  {
  }

  lemma RestLength(v: Json, k: nat, depth: nat, fmt: bool)
    requires v.Array? && k <= |v.items|
    ensures |ArrayRest(v, k, depth, fmt)| >= 1
  {
    hide ArrayRest, Text;
    ArrayNoNul(v, k, depth, fmt);
  }

  /** Element `k` and its separator move from the rest to what has been written. */
  lemma ElementStep(v: Json, k: nat, depth: nat, fmt: bool, t: seq<byte>)
    requires v.Array? && k < |v.items|
    ensures var x, sep := Text(v.items[k], depth, fmt), Separator(k + 1 < |v.items|, fmt);
            && t + ArrayRest(v, k, depth, fmt) == t + x + sep + ArrayRest(v, k + 1, depth, fmt)
            && |ArrayRest(v, k, depth, fmt)| == |x| + |sep| + |ArrayRest(v, k + 1, depth, fmt)|
            && |ArrayRest(v, k + 1, depth, fmt)| >= 1
  {
    hide Text, Separator;
    var x, sep, rest := Text(v.items[k], depth, fmt), Separator(k + 1 < |v.items|, fmt), ArrayRest(v, k + 1, depth, fmt);
    assert ArrayRest(v, k, depth, fmt) == x + sep + rest;
    RestLength(v, k + 1, depth, fmt);
  }

  lemma LastElement(v: Json, depth: nat, fmt: bool)
    requires v.Array?
    ensures ArrayRest(v, |v.items|, depth, fmt) == [CLOSE_ARRAY]
  {
  }

  lemma ObjectText(v: Json, depth: nat, fmt: bool)
    requires v.Object?
    ensures Text(v, depth, fmt) == (if fmt then [OPEN_OBJECT, NEWLINE] else [OPEN_OBJECT]) + ObjectRest(v, 0, depth + 1, fmt)
  {
    hide ObjectRest;
    assert [OPEN_OBJECT] + [NEWLINE] == [OPEN_OBJECT, NEWLINE];
  }

  lemma MembersLength(v: Json, k: nat, depth: nat, fmt: bool)
    requires v.Object? && k <= |v.members| && depth > 0
    ensures |ObjectRest(v, k, depth, fmt)| >= 1
  {
    hide ObjectRest, Text;
    ObjectNoNul(v, k, depth, fmt);
  }

  function MemberText(v: Json, k: nat, depth: nat, fmt: bool): seq<byte>
    requires v.Object? && k < |v.members|
  {
    KeyText(v.members[k].key, depth, fmt) + Text(v.members[k].value, depth, fmt) + MemberEnd(k + 1 < |v.members|, fmt)
  }

  /** Member `k` moves from the rest to what has been written. */
  lemma MemberStep(v: Json, k: nat, depth: nat, fmt: bool, t: seq<byte>)
    requires v.Object? && k < |v.members| && depth > 0
    ensures t + ObjectRest(v, k, depth, fmt) == t + MemberText(v, k, depth, fmt) + ObjectRest(v, k + 1, depth, fmt)
    ensures |ObjectRest(v, k, depth, fmt)| == |MemberText(v, k, depth, fmt)| + |ObjectRest(v, k + 1, depth, fmt)|
    ensures |ObjectRest(v, k + 1, depth, fmt)| >= 1
  {
    hide Text, MemberEnd, KeyText;
    assert ObjectRest(v, k, depth, fmt) == MemberText(v, k, depth, fmt) + ObjectRest(v, k + 1, depth, fmt);
    MembersLength(v, k + 1, depth, fmt);
  }

  lemma LastMember(v: Json, depth: nat, fmt: bool)
    requires v.Object? && depth > 0
    ensures ObjectRest(v, |v.members|, depth, fmt) == (if fmt then Tabs(depth - 1) else []) + [CLOSE_OBJECT]
  {
  }

  // ---- Entry points ------------------------------------------------------------------------

  const DEFAULT_BUFFER_SIZE := 256

  /** The value can be printed into `limit` bytes. */
  predicate Printable(v: Json, fmt: bool, limit: nat) {
    Nests(v, 0) && |Text(v, 0, fmt)| + 2 <= limit
  }

  /** `cJSON_Print` and `cJSON_PrintUnformatted`. */
  method Print(v: Json, fmt: bool) returns (printed: Option<cstring>)
    ensures printed.Some? <==> Printable(v, fmt, INT_MAX)
    ensures printed.Some? ==> printed.value == Text(v, 0, fmt)
  {
    hide PrintBuffer.Ended, Text, Nests;
    TextNoNul(v, 0, fmt);
    var buffer := new byte[DEFAULT_BUFFER_SIZE];
    var p := new PrintBuffer(buffer, false, fmt);
    assert p.Written() == [];
    var ok := p.PrintValue(v);
    if !ok {
      return None;
    }
    p.UpdateOffset([], Text(v, 0, fmt));
    assert [] + Text(v, 0, fmt) == Text(v, 0, fmt);
    return Some(p.buffer[..p.offset]);
  }

  /** `cJSON_PrintBuffered`: the returned array begins with the text and its terminator. */
  method PrintBuffered(v: Json, prebuffer: int, fmt: bool) returns (printed: Option<array<byte>>)
    requires prebuffer <= INT_MAX
    ensures printed.Some? <==> prebuffer >= 0 && Printable(v, fmt, INT_MAX)
    ensures printed.Some? ==> |Text(v, 0, fmt)| < printed.value.Length
                              && printed.value[..|Text(v, 0, fmt)| + 1] == Text(v, 0, fmt) + [0]
  {
    hide Text, Nests;
    if prebuffer < 0 {
      return None;
    }
    var buffer := new byte[prebuffer];
    var p := new PrintBuffer(buffer, false, fmt);
    assert p.Written() == [];
    var ok := p.PrintValue(v);
    if !ok {
      return None;
    }
    assert [] + Text(v, 0, fmt) == Text(v, 0, fmt);
    return Some(p.buffer);
  }

  /** `cJSON_PrintPreallocated`: the text, its terminator and one more byte have to fit. */
  method PrintPreallocated(v: Json, buffer: array<byte>, fmt: bool) returns (ok: bool)
    requires buffer.Length <= INT_MAX
    modifies buffer
    ensures ok <==> Printable(v, fmt, buffer.Length)
    ensures ok ==> buffer[..|Text(v, 0, fmt)| + 1] == Text(v, 0, fmt) + [0]
  {
    hide Text, Nests;
    var p := new PrintBuffer(buffer, true, fmt);
    assert p.Written() == [];
    ok := p.PrintValue(v);
    assert [] + Text(v, 0, fmt) == Text(v, 0, fmt);
  }
}
