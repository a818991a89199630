/** The text of a configuration: what kconfig_print_symbol writes and what the loop of
    conf_read_simple makes of it (confdata.c, sym_escape_string_value in symbol.c). */
module ConfigText {
  import opened Expressions

  // ---------- strings in quotes ----------

  predicate Special(c: char) {
    c == '"' || c == '\\'
  }

  function EscapeChar(c: char): string {
    if Special(c) then ['\\', c] else [c]
  }

  /** A backslash before every quote and backslash. */
  function Escape(s: string): string {
    if s == [] then [] else EscapeChar(s[0]) + Escape(s[1..])
  }

  /** What is read after an opening quote: up to the closing quote, with each backslash removed and
      the character after it kept. None if there is no closing quote. */
  function Unescape(s: string): Option<string> {
    if s == [] then None
    else if s[0] == '"' then Some([])
    else if s[0] == '\\' then
      if |s| == 1 then None else Prepend(s[1], Unescape(s[2..]))
    else Prepend(s[0], Unescape(s[1..]))
  }

  function Prepend(c: char, s: Option<string>): Option<string> {
    if s.None? then None else Some([c] + s.value)
  }

  lemma {:induction false} UnescapeEscape(s: string, rest: string)
    ensures Unescape(Escape(s) + ['"'] + rest) == Some(s)
  {
    var t := Escape(s) + ['"'] + rest;
    if s != [] {
      UnescapeEscape(s[1..], rest);
      var u := Escape(s[1..]) + ['"'] + rest;
      if Special(s[0]) {
        assert t == ['\\', s[0]] + u;
        assert t[2..] == u;
      } else {
        assert t == [s[0]] + u;
        assert t[1..] == u && t[0] == s[0];
      }
      assert s == [s[0]] + s[1..];
    }
  }

  function CountSpecial(s: string): nat {
    if s == [] then 0 else (if Special(s[0]) then 1 else 0) + CountSpecial(s[1..])
  }

  lemma {:induction false} EscapeConcat(s: string, t: string)
    ensures Escape(s + t) == Escape(s) + Escape(t)
    ensures CountSpecial(s + t) == CountSpecial(s) + CountSpecial(t)
  {
    hide Special, EscapeChar;
    if s == [] {
      assert s + t == t;
    } else {
      EscapeConcat(s[1..], t);
      assert (s + t)[1..] == s[1..] + t && (s + t)[0] == s[0];
      assert EscapeChar(s[0]) + (Escape(s[1..]) + Escape(t)) == (EscapeChar(s[0]) + Escape(s[1..])) + Escape(t);
    }
  }

  lemma {:induction false} EscapeLength(s: string)
    ensures |Escape(s)| == |s| + CountSpecial(s)
  {
    if s != [] {
      EscapeLength(s[1..]);
    }
  }

  lemma {:induction false} EscapePlain(s: string)
    requires forall i :: 0 <= i < |s| ==> !Special(s[i])
    ensures Escape(s) == s && CountSpecial(s) == 0
  {
    if s != [] {
      EscapePlain(s[1..]);
    }
  }

  /** strcspn(s + i, "\"\\") */
  method NextSpecial(s: string, i: nat) returns (j: nat)
    requires i <= |s|
    ensures i <= j <= |s|
    ensures forall k :: i <= k < j ==> !Special(s[k])
    ensures j < |s| ==> Special(s[j])
  {
    j := i;
    while j < |s| && !Special(s[j])
      invariant i <= j <= |s|
      invariant forall k :: i <= k < j ==> !Special(s[k])
    {
      j := j + 1;
    }
  }

  /** sym_escape_string_value: one pass sizes the buffer, the other fills it. The buffer holds the
      result and its terminating NUL, with no room to spare. */
  method EscapeString(s: string) returns (res: string, reslen: nat)
    ensures res == ['"'] + Escape(s) + ['"']
    ensures reslen == |res| + 1
  {
    hide Escape, CountSpecial, Special;
    EscapeLength(s);
    reslen := EscapedLength(s);
    res := ['"'];
    var p := 0;
    EscapeNothing(s);
    while true
      invariant p <= |s| && res == ['"'] + Escape(s[..p])
      decreases |s| - p
    {
      var q := NextSpecial(s, p);
      Advance(s, p, q);
      res := res + s[p..q];
      p := q;
      if p == |s| {
        break;
      }
      AdvanceOne(s, p);
      res := res + ['\\'];
      res := res + [s[p]];
      p := p + 1;
    }
    assert s[..|s|] == s;
    res := res + ['"'];
  }

  /** The pass that counts. */
  method EscapedLength(s: string) returns (reslen: nat)
    ensures reslen == |s| + CountSpecial(s) + 3
  {
    hide Escape, CountSpecial, Special;
    reslen := |s| + 2 + 1;
    var p := 0;
    EscapeNothing(s);
    while true
      invariant p <= |s| && reslen == |s| + 3 + CountSpecial(s[..p])
      decreases |s| - p
    {
      var q := NextSpecial(s, p);
      Advance(s, p, q);
      p := q;
      if p == |s| {
        break;
      }
      AdvanceOne(s, p);
      reslen := reslen + 1;
      p := p + 1;
    }
    assert s[..|s|] == s;
  }

  lemma EscapeNothing(s: string)
    ensures Escape(s[..0]) == [] && CountSpecial(s[..0]) == 0
  {
  }

  lemma Advance(s: string, p: nat, q: nat)
    requires p <= q <= |s| && forall k :: p <= k < q ==> !Special(s[k])
    ensures Escape(s[..q]) == Escape(s[..p]) + s[p..q]
    ensures CountSpecial(s[..q]) == CountSpecial(s[..p])
  {
    assert s[..q] == s[..p] + s[p..q];
    EscapeConcat(s[..p], s[p..q]);
    EscapePlain(s[p..q]);
  }

  lemma AdvanceOne(s: string, p: nat)
    requires p < |s| && Special(s[p])
    ensures Escape(s[..p + 1]) == Escape(s[..p]) + ['\\', s[p]]
    ensures CountSpecial(s[..p + 1]) == CountSpecial(s[..p]) + 1
  {
    assert s[..p + 1] == s[..p] + [s[p]];
    EscapeConcat(s[..p], [s[p]]);
    assert Escape([s[p]]) == ['\\', s[p]] + Escape([s[p]][1..]) == ['\\', s[p]];
  }

  /** The loop of conf_set_sym_val that removes backslashes in place and cuts the buffer at the
      closing quote. */
  method UnescapeInPlace(buffer: string) returns (r: Option<string>)
    ensures r == Unescape(buffer)
  {
    var p := buffer;
    var i := 0;
    assert p[..0] == [] && p[0..] == p;
    assert Unescape(buffer).Some? ==> [] + Unescape(buffer).value == Unescape(buffer).value;
    while true
      invariant i <= |p|
      invariant Unescape(buffer) == PrependAll(p[..i], Unescape(p[i..]))
      decreases |p| - i
    {
      var j := NextSpecial(p, i);
      SkipPlain(p, i, j);
      if j == |p| {
        return None;
      }
      if p[j] == '"' {
        assert Unescape(p[j..]) == Some([]);
        assert p[..j] + [] == p[..j];
        return Some(p[..j]);
      }
      assert p[j..][0] == '\\';
      if j + 1 == |p| {
        return None;
      }
      ghost var p0 := p;
      p := p[..j] + p[j + 1..];
      i := j + 1;
      assert p[..i] == p0[..j] + [p0[j + 1]];
      assert p[i..] == p0[j..][2..];
      PrependConcat(p0[..j], [p0[j + 1]], Unescape(p[i..]));
    }
  }

  function PrependAll(s: string, t: Option<string>): Option<string> {
    if t.None? then None else Some(s + t.value)
  }

  lemma PrependConcat(s: string, t: string, u: Option<string>)
    ensures PrependAll(s, PrependAll(t, u)) == PrependAll(s + t, u)
    ensures |t| == 1 ==> PrependAll(t, u) == Prepend(t[0], u)
  {
    assert |t| == 1 ==> t == [t[0]];
    if u.Some? {
      assert s + (t + u.value) == (s + t) + u.value;
    }
  }

  lemma {:induction false} SkipPlain(p: string, i: nat, j: nat)
    requires i <= j <= |p| && forall k :: i <= k < j ==> !Special(p[k])
    ensures PrependAll(p[..i], Unescape(p[i..])) == PrependAll(p[..j], Unescape(p[j..]))
    decreases j - i
  {
    if i < j {
      SkipPlain(p, i + 1, j);
      assert p[..i + 1] == p[..i] + [p[i]];
      assert p[i..][0] == p[i] && p[i..][1..] == p[i + 1..];
      PrependConcat(p[..i], [p[i]], Unescape(p[i + 1..]));
    }
  }

  // ---------- symbols as the reader sees them ----------

  /** The type of a symbol and its user value: def[S_DEF_USER].tri, .val and the flag
      SYMBOL_DEF_USER. */
  datatype Slot = Slot(ty: SymType, tri: Tri, text: Option<string>, isSet: bool)

  type Slots = map<string, Slot>

  predicate IsDigit(c: char) {
    '0' <= c <= '9'
  }

  predicate IsHexDigit(c: char) {
    IsDigit(c) || 'a' <= c <= 'f' || 'A' <= c <= 'F'
  }

  predicate AllDigits(s: string) {
    forall i :: 0 <= i < |s| ==> IsDigit(s[i])
  }

  /** sym_string_valid, for the types that hold text. */
  predicate StringValid(ty: SymType, s: string) {
    match ty
    case String => true
    case Int =>
      var d := if s != [] && s[0] == '-' then s[1..] else s;
      d != [] && (d[0] == '0' ==> |d| == 1) && AllDigits(d)
    case Hex =>
      var d := if |s| >= 2 && s[0] == '0' && (s[1] == 'x' || s[1] == 'X') then s[2..] else s;
      d != [] && forall i :: 0 <= i < |d| ==> IsHexDigit(d[i])
    case _ => false
  }

  predicate StartsWith(s: string, c: char) {
    s != [] && s[0] == c
  }

  function WithTri(slot: Slot, t: Tri): Slot {
    slot.(tri := t, isSet := true)
  }

  function WithText(slot: Slot, s: string): Slot {
    if StringValid(slot.ty, s) then slot.(text := Some(s), isSet := true) else slot
  }

  /** conf_set_sym_val: a value the type does not admit leaves the symbol as it was. */
  function SetValue(slot: Slot, p: string): Slot {
    match slot.ty
    case Tristate =>
      if StartsWith(p, 'm') then WithTri(slot, MOD)
      else if StartsWith(p, 'y') then WithTri(slot, YES)
      else if StartsWith(p, 'n') then WithTri(slot, NO)
      else slot
    case Boolean =>
      if StartsWith(p, 'y') then WithTri(slot, YES)
      else if StartsWith(p, 'n') then WithTri(slot, NO)
      else slot
    case OtherType =>
      if StartsWith(p, '"') then slot else WithText(slot.(ty := String), p)
    case String =>
      if !StartsWith(p, '"') then slot
      else
        var v := Unescape(p[1..]);
        if v.None? then slot else WithText(slot, v.value)
    case Int => WithText(slot, p)
    case Hex => WithText(slot, p)
    case Unknown => slot
  }

  function SetUnset(slot: Slot): Slot {
    if slot.ty.Boolean? || slot.ty.Tristate? then WithTri(slot, NO) else slot
  }

  /** "y", "m" and "n" find the fixed constants, which have no type and so take no value. */
  predicate Finds(slots: Slots, name: string) {
    name in slots && name != "y" && name != "m" && name != "n"
  }

  // ---------- reading ----------

  /** The position of the first `c`, or the length: strchr, and the end of a C string. */
  function IndexOf(s: string, c: char): (k: nat)
    ensures k <= |s|
    ensures forall i :: 0 <= i < k ==> s[i] != c
    ensures k < |s| ==> s[k] == c
  {
    if s == [] || s[0] == c then 0 else 1 + IndexOf(s[1..], c)
  }

  function CString(s: string): string {
    s[..IndexOf(s, '\0')]
  }

  /** The value after the equals sign: a carriage return goes only when a newline follows it. */
  function Chop(v: string): string {
    var k := IndexOf(v, '\n');
    if k < |v| && k > 0 && v[k - 1] == '\r' then v[..k - 1] else v[..k]
  }

  datatype Command = Skip | Unset(name: string) | Assign(name: string, value: string)

  /** The rest of a comment line after the prefix. */
  function ParseComment(u: string): Command {
    var k := IndexOf(u, ' ');
    if k < |u| && "is not set" <= u[k + 1..] then Unset(u[..k]) else Skip
  }

  /** The rest of any other line after the prefix. */
  function ParseAssignment(u: string): Command {
    var k := IndexOf(u, '=');
    if k < |u| then Assign(u[..k], Chop(u[k + 1..])) else Skip
  }

  /** What one line, its newline included, asks for. */
  function Parse(prefix: string, line: string): Command {
    if StartsWith(line, '#') then
      var t := if |line| < 2 then [] else line[2..];
      if prefix <= t then ParseComment(CString(t[|prefix|..])) else Skip
    else
      if prefix <= line then ParseAssignment(CString(line[|prefix|..])) else Skip
  }

  function Perform(slots: Slots, c: Command): Slots {
    if c.Skip? || !Finds(slots, c.name) then slots
    else
      var slot := slots[c.name];
      slots[c.name := if c.Unset? then SetUnset(slot) else SetValue(slot, c.value)]
  }

  /** The length of the first line: up to and with its newline. */
  function LineEnd(text: string): (k: nat)
    requires text != []
    ensures 0 < k <= |text|
  {
    var k := IndexOf(text, '\n');
    if k < |text| then k + 1 else k
  }

  function ReadText(slots: Slots, prefix: string, text: string): Slots
    decreases |text|
  {
    if text == [] then slots
    else
      var k := LineEnd(text);
      ReadText(Perform(slots, Parse(prefix, text[..k])), prefix, text[k..])
  }

  function ResetSlot(slot: Slot): Slot {
    slot.(tri := NO, text := None, isSet := false)
  }

  function Reset(slots: Slots): Slots {
    map name | name in slots :: ResetSlot(slots[name])
  }

  class Configuration {
    const prefix: string
    var slots: Slots

    constructor (prefix: string, slots: Slots)
      ensures this.prefix == prefix && this.slots == slots
    {
      this.prefix := prefix;
      this.slots := slots;
    }

    /** conf_set_sym_val. The result is nonzero when the value is refused with a warning. */
    method SetSymVal(name: string, value: string) returns (refused: bool)
      requires name in slots
      modifies this
      ensures slots == old(slots)[name := SetValue(old(slots[name]), value)]
      ensures refused ==> slots == old(slots)
    {
      var slot := slots[name];
      var p := value;
      refused := false;
      ghost var same := old(slots)[name := slot];
      assert same == old(slots);
      if slot.ty.Tristate? && StartsWith(p, 'm') {
        slots := slots[name := slot.(tri := MOD, isSet := true)];
        return;
      }
      if slot.ty.Tristate? || slot.ty.Boolean? {
        if StartsWith(p, 'y') {
          slots := slots[name := slot.(tri := YES, isSet := true)];
        } else if StartsWith(p, 'n') {
          slots := slots[name := slot.(tri := NO, isSet := true)];
        } else {
          refused := true;
        }
        return;
      }
      if slot.ty.Unknown? {
        return;
      }
      if slot.ty.OtherType? && !StartsWith(p, '"') {
        slot := slot.(ty := String);
      } else if slot.ty.OtherType? || slot.ty.String? {
        if !StartsWith(p, '"') {
          return;
        }
        var v := UnescapeInPlace(p[1..]);
        if v.None? {
          return true;
        }
        p := v.value;
      }
      if StringValid(slot.ty, p) {
        slots := slots[name := slot.(text := Some(p), isSet := true)];
      } else {
        refused := true;
      }
    }

    /** compat_getline: the bytes up to and with the next newline. Nothing is left at the end of
        the file. */
    method GetLine(text: string, at: nat) returns (line: string, next: nat)
      requires at <= |text|
      ensures at <= next <= |text| && line == text[at..next]
      ensures at < |text| ==> next == at + LineEnd(text[at..])
    {
      next := at;
      line := [];
      while next < |text|
        invariant at <= next <= |text| && line == text[at..next]
        invariant forall i :: at <= i < next ==> text[i] != '\n'
      {
        line := line + [text[next]];
        next := next + 1;
        if text[next - 1] == '\n' {
          LineEndIs(text[at..], next - at);
          return;
        }
      }
      if at < |text| {
        LineEndIs(text[at..], next - at);
      }
    }

    /** The reset of all symbols and the loop of conf_read_simple, for the user definitions. */
    method ReadSimple(text: string)
      modifies this
      ensures slots == ReadText(Reset(old(slots)), prefix, text)
    {
      hide Parse, Perform, LineEnd;
      slots := map name | name in slots :: slots[name].(tri := NO, text := None, isSet := false);
      ghost var start := Reset(old(slots));
      assert slots == start;
      var at := 0;
      assert text[0..] == text;
      while at < |text|
        invariant at <= |text|
        invariant ReadText(start, prefix, text) == ReadText(slots, prefix, text[at..])
      {
        var line, next := GetLine(text, at);
        assert text[at..][..next - at] == line && text[at..][next - at..] == text[next..];
        ReadLine(line);
        at := next;
      }
    }

    method ReadLine(line: string)
      modifies this
      ensures slots == Perform(old(slots), Parse(prefix, line))
    {
      hide SetValue, CString, IndexOf;
      if StartsWith(line, '#') {
        var p := if |line| < 2 then [] else line[2..];
        if !(prefix <= p) {
          return;
        }
        p := CString(p[|prefix|..]);
        var k := IndexOf(p, ' ');
        if k == |p| || !("is not set" <= p[k + 1..]) {
          return;
        }
        var name := p[..k];
        if !Finds(slots, name) {
          return;
        }
        var slot := slots[name];
        if slot.ty.Boolean? || slot.ty.Tristate? {
          slots := slots[name := slot.(tri := NO, isSet := true)];
        } else {
          assert slots[name := slot] == slots;
        }
      } else if prefix <= line {
        var p := CString(line[|prefix|..]);
        var k := IndexOf(p, '=');
        if k == |p| {
          return;
        }
        var name, value := p[..k], p[k + 1..];
        var e := IndexOf(value, '\n');
        if e < |value| {
          value := value[..e];
          if e > 0 && value[e - 1] == '\r' {
            value := value[..e - 1];
          }
        }
        assert value == Chop(p[k + 1..]);
        if Finds(slots, name) {
          var _ := SetSymVal(name, value);
        }
      }
    }
  }

  lemma IndexOfIs(s: string, c: char, k: nat)
    requires k <= |s| && (forall i :: 0 <= i < k ==> s[i] != c) && (k < |s| ==> s[k] == c)
    ensures IndexOf(s, c) == k
  {
    var j := IndexOf(s, c);
  }

  lemma LineEndIs(text: string, k: nat)
    requires 0 < k <= |text| && forall i :: 0 <= i < k - 1 ==> text[i] != '\n'
    requires k < |text| ==> text[k - 1] == '\n'
    ensures LineEnd(text) == k
  {
    IndexOfIs(text, '\n', if text[k - 1] == '\n' then k - 1 else k);
  }

  // ---------- writing ----------

  /** What conf_write puts into the file: a comment, the title of a visible menu, or a symbol of a type
      with the string of its value. */
  datatype Item =
    | Comment(text: string)
    | Title(text: string)
    | Entry(name: string, ty: SymType, value: string)

  function CommentLine(line: string): string {
    if line == [] then "#" else "# " + line
  }

  /** kconfig_print_comment: each line of the text after a number sign. */
  function PrintComment(text: string): string {
    var k := IndexOf(text, '\n');
    CommentLine(text[..k]) + "\n" + if k < |text| then PrintComment(text[k + 1..]) else []
  }

  const GENERATED: string := "Automatically generated file; DO NOT EDIT."

  /** What fits into the 256 bytes of conf_write_heading. */
  function HeadingText(title: string): string {
    var full := "\n" + GENERATED + "\n" + title + "\n";
    if |full| <= 255 then full else full[..255]
  }

  /** kconfig_print_symbol. With `skipUnset`, a boolean or tristate symbol at n leaves no line. */
  function PrintSymbol(prefix: string, name: string, ty: SymType, value: string, skipUnset: bool): string {
    if (ty.Boolean? || ty.Tristate?) && StartsWith(value, 'n') then
      if skipUnset then [] else "# " + prefix + name + " is not set\n"
    else prefix + name + "=" + value + "\n"
  }

  function PrintItem(prefix: string, item: Item, skipUnset: bool): string {
    match item
    case Comment(text) => PrintComment(text)
    case Title(text) => "\n#\n# " + text + "\n#\n"
    case Entry(name, ty, value) =>
      if ty.OtherType? || ty.Unknown? then []
      else if ty.String? then PrintSymbol(prefix, name, ty, ['"'] + Escape(value) + ['"'], skipUnset)
      else PrintSymbol(prefix, name, ty, value, skipUnset)
  }

  function Print(prefix: string, items: seq<Item>, skipUnset: bool): string {
    if items == [] then []
    else PrintItem(prefix, items[0], skipUnset) + Print(prefix, items[1..], skipUnset)
  }

  // ---------- reading back what was written ----------

  predicate OneLine(s: string) {
    '\n' !in s && '\0' !in s
  }

  predicate NameChar(c: char) {
    IsDigit(c) || 'a' <= c <= 'z' || 'A' <= c <= 'Z' || c == '_'
  }

  predicate OrdinaryName(name: string) {
    name != [] && (forall i :: 0 <= i < |name| ==> NameChar(name[i]))
    && name != "y" && name != "m" && name != "n"
  }

  predicate GoodPrefix(prefix: string) {
    OneLine(prefix) && !StartsWith(prefix, '#')
  }

  /** A comment line that the reader does not take for the unset line of a bool or tristate symbol. */
  predicate HarmlessLine(prefix: string, slots: Slots, line: string) {
    var c := Parse(prefix, "# " + line + "\n");
    c.Unset? && Finds(slots, c.name) ==> !slots[c.name].ty.Boolean? && !slots[c.name].ty.Tristate?
  }

  predicate HarmlessTitle(prefix: string, slots: Slots, text: string) {
    OneLine(text) && HarmlessLine(prefix, slots, text)
  }

  predicate HarmlessComment(prefix: string, slots: Slots, text: string) {
    var k := IndexOf(text, '\n');
    (k == 0 || HarmlessLine(prefix, slots, text[..k]))
    && (k < |text| ==> HarmlessComment(prefix, slots, text[k + 1..]))
  }

  /** Values as sym_get_string_value gives them. An int or hex value need not be valid, but a
      carriage return at its end would be lost. */
  predicate Writable(ty: SymType, value: string) {
    match ty
    case Boolean => value == "y" || value == "n"
    case Tristate => value == "y" || value == "m" || value == "n"
    case String => OneLine(value)
    case Int => OneLine(value) && (value != [] ==> value[|value| - 1] != '\r')
    case Hex => OneLine(value) && (value != [] ==> value[|value| - 1] != '\r')
    case _ => true
  }

  predicate Good(prefix: string, slots: Slots, item: Item) {
    match item
    case Comment(text) => '\0' !in text && HarmlessComment(prefix, slots, text)
    case Title(text) => HarmlessTitle(prefix, slots, text)
    case Entry(name, ty, value) =>
      OrdinaryName(name) && name in slots && slots[name].ty == ty && Writable(ty, value)
  }

  predicate DistinctNames(items: seq<Item>) {
    forall i, j :: 0 <= i < j < |items| && items[i].Entry? && items[j].Entry? ==>
      items[i].name != items[j].name
  }

  /** What the reader must find out about a symbol written with this value. */
  function Known(slot: Slot, value: string, skipUnset: bool): Slot {
    match slot.ty
    case Boolean => if value == "y" then WithTri(slot, YES) else if skipUnset then slot else WithTri(slot, NO)
    case Tristate =>
      if value == "y" then WithTri(slot, YES)
      else if value == "m" then WithTri(slot, MOD)
      else if skipUnset then slot else WithTri(slot, NO)
    case String => slot.(text := Some(value), isSet := true)
    case Int => if StringValid(Int, value) then slot.(text := Some(value), isSet := true) else slot
    case Hex => if StringValid(Hex, value) then slot.(text := Some(value), isSet := true) else slot
    case _ => slot
  }

  function Learn(slots: Slots, item: Item, skipUnset: bool): Slots {
    if !item.Entry? || item.name !in slots then slots
    else slots[item.name := Known(slots[item.name], item.value, skipUnset)]
  }

  lemma NoneIn(s: string, c: char)
    requires c !in s
    ensures IndexOf(s, c) == |s|
  {
    IndexOfIs(s, c, |s|);
  }

  lemma FirstIn(s: string, c: char, t: string)
    requires c !in s
    ensures IndexOf(s + [c] + t, c) == |s|
    ensures (s + [c] + t)[..|s|] == s && (s + [c] + t)[|s| + 1..] == t
  {
    var u := s + [c] + t;
    assert forall i :: 0 <= i < |s| ==> u[i] == s[i];
    IndexOfIs(u, c, |s|);
  }

  /** One printed line is read as one command. */
  lemma ReadOne(slots: Slots, prefix: string, line: string, rest: string)
    requires '\n' !in line
    ensures ReadText(slots, prefix, line + "\n" + rest)
         == ReadText(Perform(slots, Parse(prefix, line + "\n")), prefix, rest)
  {
    var text := line + "\n" + rest;
    FirstIn(line, '\n', rest);
    assert text == line + ['\n'] + rest;
    assert text[..|line| + 1] == line + "\n" && text[|line| + 1..] == rest;
  }

  lemma NamesHaveNo(name: string, c: char)
    requires OrdinaryName(name) && !NameChar(c)
    ensures c !in name
  {
  }

  lemma UnsetShape(prefix: string, name: string)
    ensures var line := "# " + prefix + name + " is not set\n";
      |line| >= 2 && line[0] == '#' && line[2..] == prefix + (name + [' '] + "is not set\n")
  {
    var line := "# " + prefix + name + " is not set\n";
    assert " is not set\n" == [' '] + "is not set\n";
    assert line == "# " + (prefix + (name + [' '] + "is not set\n"));
  }

  lemma UnsetCommand(name: string)
    requires OrdinaryName(name)
    ensures ParseComment(name + [' '] + "is not set\n") == Unset(name)
    ensures '\0' !in name + [' '] + "is not set\n" && '\n' !in name
  {
    NamesHaveNo(name, ' ');
    NamesHaveNo(name, '\0');
    NamesHaveNo(name, '\n');
    FirstIn(name, ' ', "is not set\n");
    assert "is not set" <= "is not set\n";
  }

  lemma ParseUnset(prefix: string, name: string)
    requires OrdinaryName(name) && GoodPrefix(prefix)
    ensures Parse(prefix, "# " + prefix + name + " is not set\n") == Unset(name)
    ensures '\n' !in "# " + prefix + name + " is not set"
  {
    hide OrdinaryName, IndexOf, ParseComment, CString;
    UnsetShape(prefix, name);
    UnsetCommand(name);
    CutPrefix(prefix, name + [' '] + "is not set\n");
  }

  lemma CutPrefix(prefix: string, u: string)
    requires '\0' !in u
    ensures prefix <= prefix + u && CString((prefix + u)[|prefix|..]) == u
  {
    assert (prefix + u)[|prefix|..] == u;
    NoneIn(u, '\0');
  }

  lemma AssignShape(prefix: string, name: string, value: string)
    requires name != []
    ensures var line := prefix + name + "=" + value + "\n";
      && line == prefix + (name + ['='] + (value + ['\n'] + []))
      && line[0] == (if prefix == [] then name[0] else prefix[0])
  {
  }

  lemma ChopLine(value: string)
    requires OneLine(value) && (value != [] ==> value[|value| - 1] != '\r')
    ensures Chop(value + ['\n'] + []) == value
    ensures '\0' !in value + ['\n'] + []
  {
    hide IndexOf;
    FirstIn(value, '\n', []);
  }

  lemma AssignCommand(name: string, value: string)
    requires OrdinaryName(name) && OneLine(value)
    requires value != [] ==> value[|value| - 1] != '\r'
    ensures ParseAssignment(name + ['='] + (value + ['\n'] + [])) == Assign(name, value)
    ensures '\0' !in name + ['='] + (value + ['\n'] + []) && '\n' !in name && name[0] != '#'
  {
    NamesHaveNo(name, '#');
    NamesHaveNo(name, '=');
    NamesHaveNo(name, '\0');
    NamesHaveNo(name, '\n');
    hide IndexOf, OneLine, Chop;
    ChopLine(value);
    FirstIn(name, '=', value + ['\n'] + []);
  }

  lemma ParseAssign(prefix: string, name: string, value: string)
    requires OrdinaryName(name) && GoodPrefix(prefix) && OneLine(value)
    requires value != [] ==> value[|value| - 1] != '\r'
    ensures Parse(prefix, prefix + name + "=" + value + "\n") == Assign(name, value)
    ensures '\n' !in prefix + name + "=" + value
  {
    AssignCommand(name, value);
    AssignShape(prefix, name, value);
    var u := name + ['='] + (value + ['\n'] + []);
    hide OrdinaryName, IndexOf, ParseAssignment, CString;
    CutPrefix(prefix, u);
  }

  lemma ParseBlank(prefix: string, line: string)
    requires line == [] || line == "#"
    requires GoodPrefix(prefix)
    ensures Parse(prefix, line + "\n").Skip?
  {
    if line == [] {
      NoneIn("\n", '\0');
      NoneIn("\n", '=');
      assert prefix <= "\n" ==> prefix == [];
    } else {
      assert (line + "\n")[2..] == [];
      assert prefix <= [] ==> prefix == [];
      NoneIn([], '\0');
    }
  }

  lemma {:induction false} EscapeOneLine(s: string)
    requires OneLine(s)
    ensures OneLine(Escape(s))
  {
    if s != [] {
      assert OneLine(s[1..]);
      EscapeOneLine(s[1..]);
    }
  }

  lemma TitleShape(text: string, rest: string)
    ensures "\n#\n# " + text + "\n#\n" + rest
         == [] + "\n" + ("#" + "\n" + (("# " + text) + "\n" + ("#" + "\n" + rest)))
  {
  }

  /** Of the four lines of a title only the one with its text can ask for anything. */
  lemma ReadTitle(slots: Slots, prefix: string, text: string, rest: string)
    requires GoodPrefix(prefix) && OneLine(text)
    ensures ReadText(slots, prefix, "\n#\n# " + text + "\n#\n" + rest)
         == ReadText(Perform(slots, Parse(prefix, "# " + text + "\n")), prefix, rest)
  {
    assert '\n' !in "# " + text;
    hide ReadText, Parse, OneLine;
    TitleShape(text, rest);
    ParseBlank(prefix, []);
    ParseBlank(prefix, "#");
    ReadOne(slots, prefix, [], "#" + "\n" + (("# " + text) + "\n" + ("#" + "\n" + rest)));
    ReadOne(slots, prefix, "#", ("# " + text) + "\n" + ("#" + "\n" + rest));
    ReadOne(slots, prefix, "# " + text, "#" + "\n" + rest);
    ReadOne(Perform(slots, Parse(prefix, "# " + text + "\n")), prefix, "#", rest);
  }

  lemma HarmlessPerforms(slots: Slots, prefix: string, line: string)
    requires HarmlessLine(prefix, slots, line)
    ensures Perform(slots, Parse(prefix, "# " + line + "\n")) == slots
  {
    var c := Parse(prefix, "# " + line + "\n");
    assert !c.Assign?;
    if c.Unset? && Finds(slots, c.name) {
      assert slots[c.name := slots[c.name]] == slots;
    }
  }

  /** The condition is exact: while no symbol has a value, a title leaves it so if and only if it is
      harmless. */
  lemma TitleHarmlessIff(slots: Slots, prefix: string, text: string, skipUnset: bool)
    requires GoodPrefix(prefix) && OneLine(text)
    requires forall name :: name in slots ==> !slots[name].isSet
    ensures ReadText(slots, prefix, PrintItem(prefix, Title(text), skipUnset)) == slots
        <==> HarmlessTitle(prefix, slots, text)
  {
    var c := Parse(prefix, "# " + text + "\n");
    var next := Perform(slots, c);
    assert "\n#\n# " + text + "\n#\n" + [] == PrintItem(prefix, Title(text), skipUnset);
    ReadTitle(slots, prefix, text, []);
    if HarmlessLine(prefix, slots, text) {
      HarmlessPerforms(slots, prefix, text);
    } else {
      assert next[c.name].isSet && !slots[c.name].isSet;
    }
  }

  /** A harmless comment is skipped, line by line. */
  lemma {:induction false} ReadComment(slots: Slots, prefix: string, text: string, rest: string)
    requires GoodPrefix(prefix) && '\0' !in text && HarmlessComment(prefix, slots, text)
    ensures ReadText(slots, prefix, PrintComment(text) + rest) == ReadText(slots, prefix, rest)
    decreases |text|
  {
    var k := IndexOf(text, '\n');
    var line := CommentLine(text[..k]);
    var tail := if k < |text| then PrintComment(text[k + 1..]) else [];
    assert '\n' !in line && line == if k == 0 then "#" else "# " + text[..k];
    Reassociate(line + "\n", tail, rest);
    if k == 0 {
      ParseBlank(prefix, "#");
    } else {
      HarmlessPerforms(slots, prefix, text[..k]);
    }
    hide ReadText, Parse, PrintComment;
    ReadOne(slots, prefix, line, tail + rest);
    if k < |text| {
      ReadComment(slots, prefix, text[k + 1..], rest);
    } else {
      assert tail + rest == rest;
    }
  }

  lemma Reassociate(a: string, b: string, c: string)
    ensures (a + b) + c == a + (b + c)
  {
  }

  lemma GeneratedIsPlain()
    ensures |GENERATED| == 42 && '\n' !in GENERATED
  {
  }

  lemma GeneratedHasNoIs()
    ensures forall i :: 0 <= i < |GENERATED| - 1 ==> !(GENERATED[i] == 'i' && GENERATED[i + 1] == 's')
  {
  }

  /** Text in which "is" does not occur does not say that a symbol is not set. */
  lemma WithoutIs(t: string)
    requires forall i :: 0 <= i < |t| - 1 ==> !(t[i] == 'i' && t[i + 1] == 's')
    ensures ParseComment(t).Skip?
  {
    var k := IndexOf(t, ' ');
    if k < |t| && "is not set" <= t[k + 1..] {
      FoundIs(t, k + 1);
    }
  }

  lemma FoundIs(t: string, i: nat)
    requires i <= |t| && "is not set" <= t[i..]
    ensures i + 1 < |t| && t[i] == 'i' && t[i + 1] == 's'
  {
    assert t[i] == t[i..][0] && t[i + 1] == t[i..][1];
  }

  /** The line that every file starts with is harmless, whatever the prefix. */
  lemma GeneratedIsHarmless(prefix: string)
    ensures Parse(prefix, "# " + GENERATED + "\n").Skip?
  {
    var t := GENERATED + "\n";
    assert ("# " + GENERATED + "\n")[2..] == t && ("# " + GENERATED + "\n")[0] == '#';
    GeneratedHasNoIs();
    hide GENERATED, ParseComment;
    if prefix <= t {
      var u := CString(t[|prefix|..]);
      forall i | 0 <= i < |u| - 1 ensures !(u[i] == 'i' && u[i + 1] == 's') {
        assert u[i] == t[|prefix| + i] && u[i + 1] == t[|prefix| + i + 1];
      }
      WithoutIs(u);
    }
  }

  lemma CommentLines(prefix: string, slots: Slots, line: string, rest: string)
    requires '\n' !in line && line != []
    ensures HarmlessComment(prefix, slots, line + ['\n'] + rest)
        <==> HarmlessLine(prefix, slots, line) && HarmlessComment(prefix, slots, rest)
    ensures HarmlessComment(prefix, slots, line) <==> HarmlessLine(prefix, slots, line)
    ensures HarmlessComment(prefix, slots, ['\n'] + rest) <==> HarmlessComment(prefix, slots, rest)
    ensures HarmlessComment(prefix, slots, [])
  {
    hide HarmlessLine, IndexOf;
    FirstIn(line, '\n', rest);
    NoneIn(line, '\n');
    NoneIn([], '\n');
    FirstIn([], '\n', rest);
    assert [] + ['\n'] + rest == ['\n'] + rest && line[..|line|] == line;
  }

  lemma HeadingShape(title: string)
    requires |GENERATED| == 42
    ensures HeadingText(title)
         == ['\n'] + (GENERATED + ['\n'] + (if |title| <= 210 then title + ['\n'] + [] else title[..211]))
  {
    hide GENERATED;
    var full := "\n" + GENERATED + "\n" + title + "\n";
    assert full == ['\n'] + (GENERATED + ['\n'] + (title + ['\n'] + []));
  }

  /** The heading of a file is harmless exactly when the part of its title that fits is. */
  lemma HeadingHarmlessIff(prefix: string, slots: Slots, title: string)
    requires OneLine(title) && title != []
    ensures HarmlessComment(prefix, slots, HeadingText(title))
        <==> HarmlessLine(prefix, slots, if |title| <= 211 then title else title[..211])
  {
    GeneratedIsPlain();
    HeadingShape(title);
    GeneratedIsHarmless(prefix);
    hide GENERATED, HeadingText, HarmlessComment, Parse;
    var shown := if |title| <= 211 then title else title[..211];
    var third := if |title| <= 210 then shown + ['\n'] + [] else shown;
    assert |title| == 211 ==> title[..211] == title;
    CommentLines(prefix, slots, GENERATED, third);
    CommentLines(prefix, slots, GENERATED, GENERATED + ['\n'] + third);
    CommentLines(prefix, slots, shown, []);
  }

  /** Why titles must be harmless: a menu called "FOO is not set" turns the symbol FOO off. */
  lemma TitleMayUnset(slots: Slots, prefix: string, name: string, rest: string, skipUnset: bool)
    requires GoodPrefix(prefix) && OrdinaryName(name) && name in slots && slots[name].ty.Boolean?
    ensures ReadText(slots, prefix, PrintItem(prefix, Title(prefix + name + " is not set"), skipUnset) + rest)
         == ReadText(slots[name := slots[name].(tri := NO, isSet := true)], prefix, rest)
  {
    hide ReadText, Parse;
    var text := prefix + name + " is not set";
    NamesHaveNo(name, '\0');
    NamesHaveNo(name, '\n');
    ReadTitle(slots, prefix, text, rest);
    ParseUnset(prefix, name);
    assert "# " + text + "\n" == "# " + prefix + name + " is not set\n";
  }

  lemma SetKnown(slot: Slot, value: string, skipUnset: bool)
    requires Writable(slot.ty, value)
    requires !slot.ty.Unknown? && !slot.ty.OtherType?
    requires !((slot.ty.Boolean? || slot.ty.Tristate?) && value == "n")
    ensures var v := if slot.ty.String? then ['"'] + Escape(value) + ['"'] else value;
      SetValue(slot, v) == Known(slot, value, skipUnset)
  {
    if slot.ty.String? {
      UnescapeEscape(value, []);
      assert (['"'] + Escape(value) + ['"'])[1..] == Escape(value) + ['"'] + [];
    }
  }

  lemma ReadEntry(slots: Slots, prefix: string, item: Item, skipUnset: bool, rest: string)
    requires GoodPrefix(prefix) && item.Entry? && Good(prefix, slots, item)
    ensures ReadText(slots, prefix, PrintItem(prefix, item, skipUnset) + rest)
         == ReadText(Learn(slots, item, skipUnset), prefix, rest)
  {
    hide ReadText, Parse, Escape;
    var Entry(name, ty, value) := item;
    var slot := slots[name];
    assert slots[name := slot] == slots;
    if ty.OtherType? || ty.Unknown? {
      assert [] + rest == rest;
    } else if (ty.Boolean? || ty.Tristate?) && value == "n" {
      if skipUnset {
        assert [] + rest == rest;
      } else {
        ParseUnset(prefix, name);
        var line := "# " + prefix + name + " is not set";
        ReadOne(slots, prefix, line, rest);
        assert line + "\n" == PrintItem(prefix, item, skipUnset);
      }
    } else {
      var v := if ty.String? then ['"'] + Escape(value) + ['"'] else value;
      if ty.String? {
        EscapeOneLine(value);
      }
      ParseAssign(prefix, name, v);
      SetKnown(slot, value, skipUnset);
      ReadOne(slots, prefix, prefix + name + "=" + v, rest);
    }
  }

  lemma ReadItem(slots: Slots, prefix: string, item: Item, skipUnset: bool, rest: string)
    requires GoodPrefix(prefix) && Good(prefix, slots, item)
    ensures ReadText(slots, prefix, PrintItem(prefix, item, skipUnset) + rest)
         == ReadText(Learn(slots, item, skipUnset), prefix, rest)
  {
    hide ReadText, Parse, HarmlessLine, HarmlessComment, PrintComment;
    if item.Comment? {
      ReadComment(slots, prefix, item.text, rest);
    } else if item.Title? {
      assert HarmlessLine(prefix, slots, item.text);
      HarmlessPerforms(slots, prefix, item.text);
      ReadTitle(slots, prefix, item.text, rest);
    } else {
      ReadEntry(slots, prefix, item, skipUnset, rest);
    }
  }

  lemma StaysGood(slots: Slots, prefix: string, item: Item, learned: Item, skipUnset: bool)
    requires Good(prefix, slots, item)
    ensures Good(prefix, Learn(slots, learned, skipUnset), item)
  {
    hide Parse;
    SameTypes(slots, learned, skipUnset);
    StaysHarmless(slots, Learn(slots, learned, skipUnset), prefix, item);
  }

  predicate SameTyped(slots: Slots, slots': Slots) {
    slots.Keys == slots'.Keys && forall name :: name in slots ==> slots[name].ty == slots'[name].ty
  }

  lemma SameTypes(slots: Slots, learned: Item, skipUnset: bool)
    ensures SameTyped(slots, Learn(slots, learned, skipUnset))
  {
  }

  lemma StaysHarmless(slots: Slots, slots': Slots, prefix: string, item: Item)
    requires SameTyped(slots, slots') && Good(prefix, slots, item)
    ensures Good(prefix, slots', item)
  {
    hide Parse;
    if item.Comment? {
      StaysHarmlessComment(slots, slots', prefix, item.text);
    }
  }

  lemma {:induction false} StaysHarmlessComment(slots: Slots, slots': Slots, prefix: string, text: string)
    requires SameTyped(slots, slots') && HarmlessComment(prefix, slots, text)
    ensures HarmlessComment(prefix, slots', text)
  {
    hide Parse;
    var k := IndexOf(text, '\n');
    assert k > 0 ==> HarmlessLine(prefix, slots', text[..k]);
    if k < |text| {
      StaysHarmlessComment(slots, slots', prefix, text[k + 1..]);
    }
  }

  /** Reading a printed file learns each item in turn. */
  lemma {:induction false} ReadPrinted(slots: Slots, prefix: string, items: seq<Item>, skipUnset: bool)
    requires GoodPrefix(prefix) && forall i :: 0 <= i < |items| ==> Good(prefix, slots, items[i])
    ensures ReadText(slots, prefix, Print(prefix, items, skipUnset)) == LearnAll(slots, items, skipUnset)
  {
    if items != [] {
      hide ReadText, PrintItem, Good, Learn, GoodPrefix;
      var next := Learn(slots, items[0], skipUnset);
      ReadItem(slots, prefix, items[0], skipUnset, Print(prefix, items[1..], skipUnset));
      forall i | 0 <= i < |items[1..]| ensures Good(prefix, next, items[1..][i]) {
        StaysGood(slots, prefix, items[i + 1], items[0], skipUnset);
      }
      ReadPrinted(next, prefix, items[1..], skipUnset);
    }
  }

  function LearnAll(slots: Slots, items: seq<Item>, skipUnset: bool): Slots {
    if items == [] then slots else LearnAll(Learn(slots, items[0], skipUnset), items[1..], skipUnset)
  }

  predicate Names(items: seq<Item>, name: string) {
    exists i :: 0 <= i < |items| && items[i].Entry? && items[i].name == name
  }

  lemma {:induction false} LearnAllAt(slots: Slots, items: seq<Item>, skipUnset: bool)
    requires DistinctNames(items)
    ensures LearnAll(slots, items, skipUnset).Keys == slots.Keys
    ensures forall name | name in slots && !Names(items, name) ::
      LearnAll(slots, items, skipUnset)[name] == slots[name]
    ensures forall i | 0 <= i < |items| && items[i].Entry? && items[i].name in slots ::
      LearnAll(slots, items, skipUnset)[items[i].name] == Known(slots[items[i].name], items[i].value, skipUnset)
  {
    if items != [] {
      var next := Learn(slots, items[0], skipUnset);
      var tail := items[1..];
      forall i | 0 <= i < |tail| ensures tail[i] == items[i + 1] {
      }
      LearnAllAt(next, tail, skipUnset);
      forall name | name in slots && !Names(items, name)
        ensures LearnAll(slots, items, skipUnset)[name] == slots[name]
      {
        assert !Names(tail, name);
        assert next[name] == slots[name];
      }
      forall i | 0 <= i < |items| && items[i].Entry? && items[i].name in slots
        ensures LearnAll(slots, items, skipUnset)[items[i].name]
             == Known(slots[items[i].name], items[i].value, skipUnset)
      {
        if i == 0 {
          assert !Names(tail, items[0].name);
        } else {
          assert tail[i - 1] == items[i];
          assert next[items[i].name] == slots[items[i].name];
        }
      }
    }
  }

  /** A written configuration reads back: every symbol written has the value written, and every
      other symbol has none. */
  lemma RoundTrip(slots: Slots, prefix: string, items: seq<Item>, skipUnset: bool)
    requires GoodPrefix(prefix) && DistinctNames(items)
    requires forall i :: 0 <= i < |items| ==> Good(prefix, slots, items[i])
    ensures var r := ReadText(Reset(slots), prefix, Print(prefix, items, skipUnset));
      && r.Keys == slots.Keys
      && (forall i :: 0 <= i < |items| && items[i].Entry? ==>
            items[i].name in r && r[items[i].name] == Known(ResetSlot(slots[items[i].name]), items[i].value, skipUnset))
      && (forall name :: name in slots && !Names(items, name) ==> r[name] == ResetSlot(slots[name]))
  {
    hide ReadText, Print, Known, LearnAll, Parse, Writable;
    var start := Reset(slots);
    forall i | 0 <= i < |items| ensures Good(prefix, start, items[i]) {
      assert Good(prefix, slots, items[i]);
      StaysHarmless(slots, start, prefix, items[i]);
    }
    ReadPrinted(start, prefix, items, skipUnset);
    LearnAllAt(start, items, skipUnset);
    forall i | 0 <= i < |items| && items[i].Entry? ensures items[i].name in slots {
      assert Good(prefix, slots, items[i]);
    }
  }
}
