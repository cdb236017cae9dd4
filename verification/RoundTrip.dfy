/** Reading what was printed (src/Reader.c:86-413, src/Util.c:88-150). */
module RoundTrip {
  import opened Wrappers
  import opened Forms
  import opened Reader

  /** Text behind a form: none, or a character that ends a token. */
  predicate Delimited(rest: string) {
    rest == [] || EndsToken(rest[0])
  }

  predicate IsDelim(c: char) {
    c == ')' || c == ']' || c == '}' || c == '\0'
  }

  predicate OneToken(name: string) {
    forall c | c in name :: !EndsToken(c)
  }

  /** Without a namespace, and with no colon where one may not be. */
  predicate PlainName(name: string) {
    && OneToken(name) && ('/' in name ==> |name| == 1)
    && !HasDoubleColon(name) && (name != [] ==> name[|name| - 1] != ':')
  }

  predicate ReadableSymbol(name: string) {
    && name != [] && PlainName(name) && name != "nil" && name != "true" && name != "false"
    && !IsMacro(name[0]) && !IsDigit(name[0]) && name[0] !in ['+', '-', ':', '\0']
  }

  predicate ReadableKeyword(name: string) {
    PlainName(name) && (name != [] ==> name[0] != ':')
  }

  /** Trees of longs, booleans, readable names, lists and vectors. */
  predicate Readable(f: Form)
    decreases f
  {
    match f
    case Nil => false
    case Bool(_) => true
    case Integer(val) => MIN_LONG <= val <= MAX_LONG
    case Symbol(name) => ReadableSymbol(name)
    case Keyword(name) => ReadableKeyword(name)
    case List(items) => forall i | 0 <= i < |items| :: Readable(items[i])
    case Vector(items) => forall i | 0 <= i < |items| :: Readable(items[i])
  }

  // ---- Tokens ----

  lemma {:induction false} TokenThrough(s: string, rest: string)
    requires OneToken(s) && Delimited(rest)
    ensures TokenLength(s + rest) == |s|
  {
    if s == [] {
      assert s + rest == rest;
    } else {
      assert (s + rest)[1..] == s[1..] + rest;
      TokenThrough(s[1..], rest);
    }
  }

  lemma CharKinds(c: char)
    ensures IsDigit(c) ==>
              !IsSpace(c) && !IsMacro(c) && !IsDelim(c) && !EndsNumber(c) && c != '+' && c != '-' &&
                c != '(' && c != '['
    ensures IsDelim(c) && c != '\0' ==> IsMacro(c)
    ensures c == '(' || c == '[' || c == ')' || c == ']' || c == '}' ==> IsMacro(c)
    ensures c == '-' ==> !IsSpace(c) && !IsMacro(c) && !IsDelim(c) && !EndsNumber(c) && !IsDigit(c)
    ensures EndsToken(c) ==> EndsNumber(c)
  {
  }

  lemma {:induction false} NumberThrough(s: string, rest: string)
    requires (forall c | c in s :: IsDigit(c)) && Delimited(rest)
    ensures NumberLength(s + rest) == |s|
  {
    if s == [] {
      assert s + rest == rest;
    } else {
      assert (s + rest)[1..] == s[1..] + rest;
      assert s[0] in s;
      CharKinds(s[0]);
      NumberThrough(s[1..], rest);
    }
  }

  /** A token that starts with no macro, digit or sign is read as a whole. */
  lemma TokenRead(token: string, rest: string, eofIsError: bool, returnOn: char)
    requires token != [] && OneToken(token) && Delimited(rest) && IsDelim(returnOn)
    requires !IsMacro(token[0]) && !IsDigit(token[0]) && token[0] !in ['+', '-', '\0']
    ensures FormAhead(token + rest, eofIsError, returnOn) == Step(InterpretToken(token), rest)
  {
    hide IsSpace, IsMacro, IsTerminatingMacro, IsDigit, InterpretToken, ItemsAhead;
    var ch, t := token[0], token[1..];
    assert ch in token && !IsSpace(ch);
    CharKinds(returnOn);
    CharKinds(ch);
    assert (token + rest)[1..] == t + rest;
    TokenThrough(t, rest);
    assert (t + rest)[..|t|] == t && (t + rest)[|t|..] == rest;
    assert [ch] + t == token;
  }

  // ---- Numbers ----

  lemma {:induction false} DecimalDigits(n: nat)
    ensures forall c | c in Decimal(n) :: IsDigit(c)
    ensures |Decimal(n)| > 1 ==> Decimal(n)[0] != '0'
  {
    if n >= 10 {
      DecimalDigits(n / 10);
      if n / 10 < 10 { assert Decimal(n / 10) == [Digit(n / 10)]; }
    }
  }

  lemma {:induction false} DecimalValue(n: nat)
    ensures ValueOf(Decimal(n), 10) == n && AllDigits(Decimal(n), 10)
  {
    if n >= 10 {
      DecimalValue(n / 10);
      var s := Decimal(n);
      assert s[..|s| - 1] == Decimal(n / 10);
    } else {
      assert Decimal(n)[..0] == [];
      assert ValueOf([], 10) == 0;
    }
  }

  lemma DecimalRead(n: nat, negative: bool)
    requires if negative then 0 - n >= MIN_LONG else n <= MAX_LONG
    ensures StrToL(Decimal(n), negative) == Some(if negative then 0 - n else n)
  {
    DecimalDigits(n);
    DecimalValue(n);
  }

  lemma IntegerRead(val: int, rest: string, eofIsError: bool, returnOn: char)
    requires MIN_LONG <= val <= MAX_LONG && Delimited(rest) && IsDelim(returnOn)
    ensures FormAhead(IntegerToString(val) + rest, eofIsError, returnOn) == Step(Read(Integer(val)), rest)
  {
    hide IsSpace, IsMacro, IsTerminatingMacro, IsDigit, ItemsAhead, StrToL, Decimal, NumberLength, TokenLength;
    var n := if val < 0 then 0 - val else val;
    var digits, text := Decimal(n), IntegerToString(val);
    DecimalDigits(n);
    DecimalRead(n, val < 0);
    var ch, t := text[0], text[1..];
    assert (text + rest)[1..] == t + rest;
    assert val < 0 ==> t == digits;
    assert digits[0] in digits;
    CharKinds(ch);
    CharKinds(digits[0]);
    NumberThrough(t, rest);
    assert (t + rest)[..|t|] == t && (t + rest)[|t|..] == rest;
    assert [ch] + t == text;
    if val < 0 { assert (t + rest)[0] == digits[0]; }
  }

  // ---- Numbers that the printer does not write ----

  /** A digit of base 16, in small or capital letters. */
  function HexDigit(d: nat, capital: bool): char
    requires d < 16
  {
    if capital then "0123456789ABCDEF"[d] else "0123456789abcdef"[d]
  }

  /** A number in base 8 or 16. */
  function Numeral(n: nat, base: nat, capital: bool): (s: string)
    requires 2 <= base <= 16
    ensures s != []
  {
    if n < base then [HexDigit(n, capital)]
    else Numeral(n / base, base, capital) + [HexDigit(n % base, capital)]
  }

  lemma HexDigitValue(d: nat, capital: bool)
    requires d < 16
    ensures DigitValue(HexDigit(d, capital)) == d && !(HexDigit(d, capital) in "xX")
  {
  }

  lemma {:induction false} NumeralValue(n: nat, base: nat, capital: bool)
    requires 2 <= base <= 16
    ensures var s := Numeral(n, base, capital); ValueOf(s, base) == n && AllDigits(s, base) && !(s[0] in "xX")
  {
    hide DigitValue, HexDigit;
    var s := Numeral(n, base, capital);
    QuotientBelow(n, base);
    if n < base {
      HexDigitValue(n, capital);
      assert s[..0] == [];
      assert ValueOf([], base) == 0;
    } else {
      NumeralValue(n / base, base, capital);
      HexDigitValue(n % base, capital);
      assert s[..|s| - 1] == Numeral(n / base, base, capital);
      assert ValueOf(s, base) == n / base * base + n % base;
    }
  }

  lemma QuotientBelow(n: nat, base: nat)
    requires base >= 2
    ensures n == n / base * base + n % base && n % base < base && (n >= base ==> n / base < n)
  {
  }

  lemma {:induction false} LeadingZero(s: string, base: nat)
    requires base > 0
    ensures ValueOf("0" + s, base) == ValueOf(s, base)
  {
    var t := "0" + s;
    if s == [] {
      assert t[..0] == [];
      assert ValueOf([], base) == 0;
    } else {
      LeadingZero(s[..|s| - 1], base);
      assert t[..|t| - 1] == "0" + s[..|s| - 1];
    }
  }

  /** A number behind a sign or none reads as itself in decimal. */
  lemma DecimalReads(n: nat, sign: string)
    requires sign in ["", "+", "-"] && if sign == "-" then 0 - n >= MIN_LONG else n <= MAX_LONG
    ensures InterpretNumber(sign + Decimal(n)) == Read(Integer(if sign == "-" then 0 - n else n))
  {
    hide StrToL, InterpretNumber, Decimal, IsDigit;
    DecimalDigits(n);
    assert Decimal(n)[0] in Decimal(n);
    DecimalRead(n, sign == "-");
    SignTaken(sign, Decimal(n));
  }

  /** ... in octal behind a `0`. */
  lemma OctalReads(n: nat, sign: string)
    requires sign in ["", "+", "-"] && if sign == "-" then 0 - n >= MIN_LONG else n <= MAX_LONG
    ensures InterpretNumber(sign + ("0" + Numeral(n, 8, false))) == Read(Integer(if sign == "-" then 0 - n else n))
  {
    hide StrToL, InterpretNumber, Numeral;
    OctalRead(n, sign == "-");
    SignTaken(sign, "0" + Numeral(n, 8, false));
  }

  /** ... and in hexadecimal behind `0x` or `0X`. */
  lemma HexReads(n: nat, sign: string, x: char, capital: bool)
    requires x == 'x' || x == 'X'
    requires sign in ["", "+", "-"] && if sign == "-" then 0 - n >= MIN_LONG else n <= MAX_LONG
    ensures InterpretNumber(sign + ("0" + [x] + Numeral(n, 16, capital))) ==
            Read(Integer(if sign == "-" then 0 - n else n))
  {
    hide StrToL, InterpretNumber, Numeral;
    HexRead(n, sign == "-", x, capital);
    SignTaken(sign, "0" + [x] + Numeral(n, 16, capital));
  }

  lemma OctalRead(n: nat, negative: bool)
    requires if negative then 0 - n >= MIN_LONG else n <= MAX_LONG
    ensures StrToL("0" + Numeral(n, 8, false), negative) == Some(if negative then 0 - n else n)
  {
    hide DigitValue, HexDigit, Numeral;
    var s := Numeral(n, 8, false);
    NumeralValue(n, 8, false);
    LeadingZero(s, 8);
    HexDigitValue(0, false);
    ZeroDigit();
    var t := "0" + s;
    forall i | 0 <= i < |t| ensures DigitValue(t[i]) < 8 { if i > 0 { assert t[i] == s[i - 1]; } }
  }

  lemma ZeroDigit()
    ensures DigitValue('0') == 0
  {
  }

  lemma HexRead(n: nat, negative: bool, x: char, capital: bool)
    requires (x == 'x' || x == 'X') && if negative then 0 - n >= MIN_LONG else n <= MAX_LONG
    ensures StrToL("0" + [x] + Numeral(n, 16, capital), negative) == Some(if negative then 0 - n else n)
  {
    hide DigitValue, HexDigit, Numeral, ValueOf, AllDigits, StrToL;
    var s := Numeral(n, 16, capital);
    NumeralValue(n, 16, capital);
    var t := "0" + [x] + s;
    assert t[0] == '0' && t[1] == x;
    assert t[2..] == s;
    HexTaken(t, s, n, negative);
  }

  lemma HexTaken(t: string, s: string, n: nat, negative: bool)
    requires |t| > 1 && t[0] == '0' && (t[1] == 'x' || t[1] == 'X') && t[2..] == s && s != []
    requires AllDigits(s, 16) && ValueOf(s, 16) == n && if negative then 0 - n >= MIN_LONG else n <= MAX_LONG
    ensures StrToL(t, negative) == Some(if negative then 0 - n else n)
  {
    hide ValueOf, AllDigits;
  }

  lemma SignTaken(sign: string, digits: string)
    requires sign in ["", "+", "-"] && digits != [] && IsDigit(digits[0])
    requires StrToL(digits, sign == "-").Some?
    ensures InterpretNumber(sign + digits) == Read(Integer(StrToL(digits, sign == "-").value))
  {
    hide StrToL;
    if sign == "" {
      assert sign + digits == digits;
    } else {
      assert (sign + digits)[1..] == digits;
    }
  }

  // ---- The round trip ----

  lemma ColonsInKeyword(name: string)
    requires ReadableKeyword(name)
    ensures !HasDoubleColon(":" + name) && OneToken(":" + name)
    ensures name != [] ==> (":" + name)[|name|] == name[|name| - 1]
  {
    var token := ":" + name;
    forall i | 0 <= i < |token| - 1 && token[i] == ':' ensures token[i + 1] != ':' {
      if i > 0 { assert token[i] == name[i - 1] && token[i + 1] == name[i]; }
    }
  }

  /** Reading the printed text of a tree gives the tree back and takes just that text. */
  lemma {:induction false} RoundTrip(f: Form, rest: string, eofIsError: bool, returnOn: char)
    requires Readable(f) && Delimited(rest) && IsDelim(returnOn)
    ensures FormAhead(Print(f) + rest, eofIsError, returnOn) == Step(Read(f), rest)
    decreases f
  {
    hide FormAhead, ItemsAhead, IsMacro, IsSpace, EndsToken, IntegerToString, PrintItems;
    match f
    case Bool(b) => BoolRead(b, rest, eofIsError, returnOn);
    case Integer(val) => IntegerRead(val, rest, eofIsError, returnOn);
    case Symbol(name) => NamesRead(f, rest, eofIsError, returnOn);
    case Keyword(name) => NamesRead(f, rest, eofIsError, returnOn);
    case List(items) =>
      ItemsRoundTrip(items, ')', rest);
      BracketsRead('(', ')', items, rest, eofIsError, returnOn);
    case Vector(items) =>
      ItemsRoundTrip(items, ']', rest);
      BracketsRead('[', ']', items, rest, eofIsError, returnOn);
  }

  lemma BoolRead(b: bool, rest: string, eofIsError: bool, returnOn: char)
    requires Delimited(rest) && IsDelim(returnOn)
    ensures FormAhead(Print(Bool(b)) + rest, eofIsError, returnOn) == Step(Read(Bool(b)), rest)
  {
    hide FormAhead;
    TokenRead(Print(Bool(b)), rest, eofIsError, returnOn);
  }

  lemma NamesRead(f: Form, rest: string, eofIsError: bool, returnOn: char)
    requires Readable(f) && (f.Symbol? || f.Keyword?) && Delimited(rest) && IsDelim(returnOn)
    ensures FormAhead(Print(f) + rest, eofIsError, returnOn) == Step(Read(f), rest)
  {
    hide FormAhead, ItemsAhead, HasDoubleColon;
    if f.Symbol? {
      TokenRead(f.name, rest, eofIsError, returnOn);
    } else {
      ColonsInKeyword(f.name);
      TokenRead(":" + f.name, rest, eofIsError, returnOn);
      assert (":" + f.name)[1..] == f.name;
    }
  }

  lemma BracketsRead(open: char, close: char, items: seq<Form>, rest: string, eofIsError: bool, returnOn: char)
    requires (open == '(' && close == ')') || (open == '[' && close == ']')
    requires IsDelim(returnOn) && ItemsAhead(PrintItems(items) + [close] + rest, close) == Items(items, rest)
    ensures FormAhead([open] + PrintItems(items) + [close] + rest, eofIsError, returnOn)
            == Step(Read(if open == '(' then List(items) else Vector(items)), rest)
  {
    hide ItemsAhead, PrintItems, IsMacro;
    var s := [open] + PrintItems(items) + [close] + rest;
    assert s[1..] == PrintItems(items) + [close] + rest;
  }

  lemma {:induction false} ItemsRoundTrip(items: seq<Form>, delim: char, rest: string)
    requires (forall i | 0 <= i < |items| :: Readable(items[i])) && (delim == ')' || delim == ']')
    ensures ItemsAhead(PrintItems(items) + [delim] + rest, delim) == Items(items, rest)
    decreases items
  {
    hide FormAhead, ItemsAhead, Print, PrintItems, Behind, Delimited;
    ItemsText(items, delim, rest);
    if items == [] {
      CloseAhead(delim, rest);
    } else {
      var tail := items[1..];
      ItemsRoundTrip(tail, delim, rest);
      var behind := Behind(tail, delim, rest);
      BehindAhead(tail, delim, rest);
      RoundTrip(items[0], behind, true, delim);
      ItemRead(Print(items[0]) + behind, items[0], behind, tail, delim, rest);
      assert [items[0]] + tail == items;
    }
  }

  /** What follows an item: the delimiter, or a space and the other items. */
  function Behind(tail: seq<Form>, delim: char, rest: string): string
    requires forall i | 0 <= i < |tail| :: Readable(tail[i])
  {
    if tail == [] then [delim] + rest else " " + (PrintItems(tail) + [delim] + rest)
  }

  lemma ItemsText(items: seq<Form>, delim: char, rest: string)
    requires forall i | 0 <= i < |items| :: Readable(items[i])
    ensures PrintItems(items) + [delim] + rest ==
              if items == [] then [delim] + rest else Print(items[0]) + Behind(items[1..], delim, rest)
  {
  }

  lemma BehindAhead(tail: seq<Form>, delim: char, rest: string)
    requires (forall i | 0 <= i < |tail| :: Readable(tail[i])) && (delim == ')' || delim == ']')
    requires ItemsAhead(PrintItems(tail) + [delim] + rest, delim) == Items(tail, rest)
    ensures ItemsAhead(Behind(tail, delim, rest), delim) == Items(tail, rest)
    ensures Delimited(Behind(tail, delim, rest))
  {
    if tail == [] {
      assert PrintItems(tail) + [delim] + rest == [delim] + rest;
    } else {
      SpaceSkipped(PrintItems(tail) + [delim] + rest, delim);
    }
  }

  lemma CloseAhead(delim: char, rest: string)
    requires delim == ')' || delim == ']'
    ensures ItemsAhead([delim] + rest, delim) == Items([], rest)
  {
    assert ([delim] + rest)[1..] == rest;
  }

  /** The loop of `ReadDelimitedList` reads one form and goes on behind it. */
  lemma ItemRead(text: string, item: Form, behind: string, tail: seq<Form>, delim: char, rest: string)
    requires FormAhead(text, true, delim) == Step(Read(item), behind) && !item.Nil?
    requires ItemsAhead(behind, delim) == Items(tail, rest)
    ensures ItemsAhead(text, delim) == Items([item] + tail, rest)
  {
    hide FormAhead;
  }

  lemma SpaceSkipped(s: string, delim: char)
    ensures ItemsAhead(" " + s, delim) == ItemsAhead(s, delim)
  {
    assert (" " + s)[1..] == s;
    assert FormAhead(" " + s, true, delim) == FormAhead(s, true, delim);
  }

  // ---- Which names can be read back ----

  /** A name read from `s` takes up at least its own length; if just that, it is readable. */
  ghost predicate NameFits(s: string, r: Step) {
    && (r.outcome.Read? && r.outcome.form.Symbol? ==>
          var n := r.outcome.form.name;
          |n| + |r.rest| <= |s| && (|n| + |r.rest| == |s| ==> ReadableSymbol(n) || r.rest == []))
    && (r.outcome.Read? && r.outcome.form.Keyword? ==>
          var n := r.outcome.form.name;
          1 + |n| + |r.rest| <= |s| && (1 + |n| + |r.rest| == |s| ==> ReadableKeyword(n)))
  }

  lemma {:induction false} NameRead(s: string, eofIsError: bool)
    ensures NameFits(s, FormAhead(s, eofIsError, '\0'))
  {
    hide TokenAhead, NumberAhead, ItemsAhead, IsMacro, IsSpace, ReadableSymbol, ReadableKeyword;
    if s != [] {
      var ch, t := s[0], s[1..];
      if IsSpace(ch) {
        NameRead(t, eofIsError);
      } else if !IsMacro(ch) && ch != '\0' {
        NumberNamesNothing(s, ch, t);
        if !IsDigit(ch) { TokenNamed(s, ch, if (ch == '+' || ch == '-') && t != [] then t[1..] else t); }
      }
    }
  }

  lemma NumberNamesNothing(s: string, ch: char, t: string)
    ensures NameFits(s, NumberAhead(ch, t))
  {
  }

  lemma TokenNamed(s: string, ch: char, t: string)
    requires s != [] && ch == s[0] && !EndsToken(ch) && !IsMacro(ch) && !IsDigit(ch) && ch != '\0'
    requires if ch == '+' || ch == '-' then t == [] || |t| < |s| - 1 else t == s[1..]
    ensures NameFits(s, TokenAhead(ch, t))
  {
    hide InterpretToken;
    TokenTaken(t);
    WholeToken(ch, t);
  }

  lemma {:induction false} TokenTaken(s: string)
    ensures OneToken(s[..TokenLength(s)])
  {
    if s != [] && !EndsToken(s[0]) {
      TokenTaken(s[1..]);
      assert s[..TokenLength(s)] == [s[0]] + s[1..][..TokenLength(s[1..])];
    }
  }

  lemma WholeToken(ch: char, s: string)
    requires !EndsToken(ch) && OneToken(s[..TokenLength(s)])
    ensures var token := [ch] + s[..TokenLength(s)];
            var r := InterpretToken(token);
            && (r.Read? && r.form.Symbol? ==> r.form.name == token && ch != ':' && PlainName(token) &&
                                              token != "nil" && token != "true" && token != "false")
            && (r.Read? && r.form.Keyword? ==> ":" + r.form.name == token && ReadableKeyword(r.form.name))
  {
    var token := [ch] + s[..TokenLength(s)];
    var r := InterpretToken(token);
    if r.Read? && r.form.Keyword? {
      var n := r.form.name;
      assert token == ":" + n;
      forall i | 0 <= i < |n| - 1 && n[i] == ':' ensures n[i + 1] != ':' {
        var j := i + 1;
        assert token[j] == ':' && token[j + 1] == n[i + 1];
      }
      if n != [] { assert token[0] == ':' && token[0 + 1] == n[0]; }
    }
  }

  /** A symbol without namespace comes back in front of any delimiter just when it is readable. */
  lemma SymbolReadsBack(name: string)
    ensures (forall rest | Delimited(rest) :: FormAhead(name + rest, true, '\0') == Step(Read(Symbol(name)), rest))
            <==> ReadableSymbol(name)
  {
    if ReadableSymbol(name) {
      forall rest | Delimited(rest) ensures FormAhead(name + rest, true, '\0') == Step(Read(Symbol(name)), rest) {
        RoundTrip(Symbol(name), rest, true, '\0');
      }
    } else {
      NameRead(name + " ", true);
      assert Delimited(" ");
    }
  }

  lemma KeywordReadsBack(name: string)
    ensures (forall rest | Delimited(rest) ::
              FormAhead(":" + name + rest, true, '\0') == Step(Read(Keyword(name)), rest))
            <==> ReadableKeyword(name)
  {
    if ReadableKeyword(name) {
      forall rest | Delimited(rest)
        ensures FormAhead(":" + name + rest, true, '\0') == Step(Read(Keyword(name)), rest) {
        RoundTrip(Keyword(name), rest, true, '\0');
      }
    } else {
      NameRead(":" + name + " ", true);
      assert Delimited(" ");
    }
  }
}
