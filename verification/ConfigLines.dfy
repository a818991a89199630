/** What a line of a configuration that is written means, and which lines a reader refuses (confdata.c). */
module ConfigLines {
  import opened Expressions
  import opened ConfigText

  // ---------- written lines ----------

  /** A bool or tristate symbol at n is written as a comment, which sets nothing for anybody who does not
      know the format, and is read as that; any other value is written as an assignment. */
  lemma LineOfSymbol(prefix: string, name: string, ty: SymType, value: string)
    requires GoodPrefix(prefix) && OrdinaryName(name)
    requires ty.Boolean? || ty.Tristate?
    requires value == "y" || value == "m" || value == "n"
    ensures var line := PrintSymbol(prefix, name, ty, value, false);
      && StartsWith(line, '#') == (value == "n")
      && Parse(prefix, line) == if value == "n" then Unset(name) else Assign(name, value)
    ensures PrintSymbol(prefix, name, ty, value, true)
      == if value == "n" then [] else PrintSymbol(prefix, name, ty, value, false)
  {
    hide Parse;
    if value == "n" {
      ParseUnset(prefix, name);
    } else {
      ParseAssign(prefix, name, value);
      NotAComment(prefix, name);
    }
  }

  lemma NotAComment(prefix: string, name: string)
    requires GoodPrefix(prefix) && OrdinaryName(name)
    ensures !StartsWith(prefix + name, '#')
  {
    assert name != [] && NameChar(name[0]);
  }

  /** A string is written in quotes, and a number as it is. */
  lemma LineOfText(prefix: string, name: string, ty: SymType, value: string)
    requires GoodPrefix(prefix) && OrdinaryName(name) && Writable(ty, value)
    requires ty.String? || ty.Int? || ty.Hex?
    ensures var line := PrintItem(prefix, Entry(name, ty, value), false);
      Parse(prefix, line) == Assign(name, if ty.String? then ['"'] + Escape(value) + ['"'] else value)
  {
    hide Parse;
    if ty.String? {
      EscapeOneLine(value);
      ParseAssign(prefix, name, ['"'] + Escape(value) + ['"']);
    } else {
      ParseAssign(prefix, name, value);
    }
  }

  // ---------- comments ----------

  function Bare(line: string): string {
    if |line| < 2 then [] else line[2..]
  }

  /** The text of a comment: its lines without the number signs. */
  function Uncommented(s: string): string {
    var k := IndexOf(s, '\n');
    Bare(s[..k]) + if k + 1 < |s| then ['\n'] + Uncommented(s[k + 1..]) else []
  }

  lemma FirstLine(line: string, rest: string)
    requires '\n' !in line
    ensures Uncommented(line + ['\n'] + rest) == Bare(line) + if rest != [] then ['\n'] + Uncommented(rest) else []
  {
    hide Bare;
    var s := line + ['\n'] + rest;
    IndexOfIs(s, '\n', |line|);
    assert s[..|line|] == line && s[|line| + 1..] == rest;
  }

  lemma BareComment(line: string)
    ensures Bare(CommentLine(line)) == line && ('\n' !in line ==> '\n' !in CommentLine(line))
  {
  }

  /** kconfig_print_comment loses nothing of its text. */
  lemma {:induction false} CommentKeepsText(text: string)
    ensures PrintComment(text) != [] && Uncommented(PrintComment(text)) == text
    decreases |text|
  {
    hide Uncommented, CommentLine, Bare;
    var k := IndexOf(text, '\n');
    var rest := if k < |text| then PrintComment(text[k + 1..]) else [];
    assert PrintComment(text) == CommentLine(text[..k]) + ['\n'] + rest;
    hide PrintComment;
    BareComment(text[..k]);
    FirstLine(CommentLine(text[..k]), rest);
    if k < |text| {
      CommentKeepsText(text[k + 1..]);
      assert text == text[..k] + (['\n'] + text[k + 1..]);
    }
  }

  // ---------- refused values ----------

  function Decimal(n: nat): string {
    if n < 10 then [DigitOf(n)] else Decimal(n / 10) + [DigitOf(n % 10)]
  }

  function DigitOf(d: nat): char
    requires d < 10
  {
    ('0' as int + d) as char
  }

  /** Digits without a needless zero in front. */
  predicate Numeral(s: string) {
    s != [] && (s[0] == '0' ==> |s| == 1) && AllDigits(s)
  }

  lemma {:induction false} DecimalIsNumeral(n: nat)
    ensures Numeral(Decimal(n)) && Decimal(n)[0] != '-'
    ensures Decimal(n)[0] == '0' <==> n == 0
  {
    if n >= 10 {
      DecimalIsNumeral(n / 10);
      assert IsDigit(DigitOf(n % 10));
    }
  }

  lemma {:induction false} NumeralIsDecimal(s: string) returns (n: nat)
    requires Numeral(s)
    ensures s == Decimal(n)
  {
    var k := |s| - 1;
    assert IsDigit(s[k]);
    var d := s[k] as int - '0' as int;
    assert DigitOf(d) == s[k];
    if k == 0 {
      n := d;
    } else {
      var t := s[..k];
      assert forall i :: 0 <= i < k ==> IsDigit(s[i]);
      var m := NumeralIsDecimal(t);
      DecimalIsNumeral(m);
      n := 10 * m + d;
      assert n / 10 == m && n % 10 == d;
      assert s == t + [s[k]];
    }
  }

  /** The values that an int symbol admits are the decimal numerals, with or without a minus sign. */
  lemma IntIff(s: string)
    ensures StringValid(Int, s) <==> exists n: nat :: s == Decimal(n) || s == ['-'] + Decimal(n)
  {
    var d := if s != [] && s[0] == '-' then s[1..] else s;
    assert StringValid(Int, s) <==> Numeral(d);
    if Numeral(d) {
      var n := NumeralIsDecimal(d);
      assert d == s || s == ['-'] + d;
    }
    if n: nat :| s == Decimal(n) || s == ['-'] + Decimal(n) {
      DecimalIsNumeral(n);
      assert d == Decimal(n);
    }
  }

  /** Reading an assignment sets a symbol of a type if and only if the type admits the value: a bool does
      not admit m, and a string must be closed. */
  lemma AssignmentSets(slot: Slot, p: string)
    requires !slot.isSet
    ensures slot.ty.Boolean? ==>
      (SetValue(slot, p).isSet <==> p != [] && (p[0] == 'y' || p[0] == 'n'))
    ensures slot.ty.Tristate? ==>
      (SetValue(slot, p).isSet <==> p != [] && (p[0] == 'y' || p[0] == 'm' || p[0] == 'n'))
    ensures slot.ty.Int? || slot.ty.Hex? ==>
      (SetValue(slot, p).isSet <==> StringValid(slot.ty, p))
    ensures slot.ty.String? ==>
      (SetValue(slot, p).isSet <==> p != [] && p[0] == '"' && Unescape(p[1..]).Some?)
    ensures slot.ty.Unknown? ==> SetValue(slot, p) == slot
    ensures !SetValue(slot, p).isSet && !slot.ty.OtherType? ==> SetValue(slot, p) == slot
  {
    hide Unescape;
  }
}
