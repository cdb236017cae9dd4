/** The reader (src/Reader.c:86-413): a function from the text ahead to what is read and the text
    left, and the methods that consume a stream. */
module Reader {
  import opened Forms
  import opened Wrappers

  // ---- Characters ----

  predicate IsSpace(c: char) {
    c in [' ', '\t', '\n', '\r', 11 as char, 12 as char]
  }

  predicate IsDigit(c: char) {
    '0' <= c <= '9'
  }

  predicate IsMacro(c: char) {
    c in ['\\', '"', '(', ')', '[', ']', '{', '}', '\'', ';', '^']
  }

  predicate IsTerminatingMacro(c: char) {
    c != '#' && c != '\'' && c != '%' && IsMacro(c)
  }

  /** Where a token ends. */
  predicate EndsToken(c: char) {
    IsSpace(c) || IsTerminatingMacro(c)
  }

  predicate EndsNumber(c: char) {
    IsSpace(c) || IsMacro(c)
  }

  // ---- What reading gives ----

  /** `Other` stands for a reader that is not modelled (strings, characters, maps, quotes, comments,
      metadata, floating-point numbers, qualified symbols). */
  datatype Outcome = Read(form: Form) | Done | AtEof | Raised | Other

  /** The outcome and the text left. */
  datatype Step = Step(outcome: Outcome, rest: string)

  datatype Items = Items(forms: seq<Form>, rest: string) | Failed(outcome: Outcome)

  // ---- Tokens ----

  /** The length of the token at the head of `s`. */
  function TokenLength(s: string): (n: nat)
    ensures n <= |s|
  {
    if s == [] || EndsToken(s[0]) then 0 else 1 + TokenLength(s[1..])
  }

  function NumberLength(s: string): (n: nat)
    ensures n <= |s|
  {
    if s == [] || EndsNumber(s[0]) then 0 else 1 + NumberLength(s[1..])
  }

  predicate HasDoubleColon(s: string) {
    exists i :: 0 <= i < |s| - 1 && s[i] == ':' && s[i + 1] == ':'
  }

  /** `matchSymbol` and `internSymbol1`, for tokens without a namespace. */
  function MatchSymbol(token: string): Outcome
    requires token != []
  {
    var isKeyword := token[0] == ':';
    var body := if isKeyword then token[1..] else token;
    if '/' in body && |body| != 1 then Other
    else if body != [] && body[|body| - 1] == ':' then Raised
    else if HasDoubleColon(token) then Raised
    else Read(if isKeyword then Keyword(body) else Symbol(body))
  }

  function InterpretToken(token: string): Outcome
    requires token != []
  {
    if token == "nil" then Read(Nil)
    else if token == "true" then Read(Bool(true))
    else if token == "false" then Read(Bool(false))
    else MatchSymbol(token)
  }

  // ---- Numbers ----

  /** The value of a digit in bases up to 16, 16 for other characters. */
  function DigitValue(c: char): nat {
    if '0' <= c <= '9' then (c as int) - ('0' as int)
    else if 'a' <= c <= 'f' then (c as int) - ('a' as int) + 10
    else if 'A' <= c <= 'F' then (c as int) - ('A' as int) + 10
    else 16
  }

  predicate AllDigits(s: string, base: nat) {
    forall i | 0 <= i < |s| :: DigitValue(s[i]) < base
  }

  function ValueOf(s: string, base: nat): nat {
    if s == [] then 0 else ValueOf(s[..|s| - 1], base) * base + DigitValue(s[|s| - 1])
  }

  /** `strtol` with base 0, when it takes the whole of `s`, behind the sign, and does not overflow. */
  function StrToL(s: string, negative: bool): Option<int> {
    var base := if |s| > 1 && s[0] == '0' then (if s[1] == 'x' || s[1] == 'X' then 16 else 8) else 10;
    var digits := if base == 16 then s[2..] else s;
    if digits == [] || !AllDigits(digits, base) then None
    else
      var v: int := if negative then 0 - ValueOf(digits, base) else ValueOf(digits, base);
      if MIN_LONG <= v <= MAX_LONG then Some(v) else None
  }

  function InterpretNumber(buffer: string): Outcome
    requires buffer != []
  {
    var signed := buffer[0] == '-' || buffer[0] == '+';
    var v := StrToL(if signed then buffer[1..] else buffer, buffer[0] == '-');
    if v.Some? then Read(Integer(v.value)) else Other
  }

  // ---- Reading ----

  function TokenAhead(ch: char, s: string): (r: Step)
    ensures |r.rest| <= |s|
  {
    var n := TokenLength(s);
    Step(InterpretToken([ch] + s[..n]), s[n..])
  }

  function NumberAhead(ch: char, s: string): (r: Step)
    ensures |r.rest| <= |s|
  {
    var n := NumberLength(s);
    Step(InterpretNumber([ch] + s[..n]), s[n..])
  }

  /** `read`, from the text `s`. */
  function FormAhead(s: string, eofIsError: bool, returnOn: char): (r: Step)
    ensures |r.rest| <= |s| && (r.outcome.Read? || r.outcome.Done? ==> |r.rest| < |s|)
    decreases |s|, 0
  {
    if s == [] then Step(if eofIsError then Raised else AtEof, [])
    else
      var ch, t := s[0], s[1..];
      if IsSpace(ch) then FormAhead(t, eofIsError, returnOn)
      else if ch == returnOn then Step(Done, t)
      else if ch == '(' then
        match ItemsAhead(t, ')')
        case Items(forms, rest) => Step(Read(List(forms)), rest)
        case Failed(outcome) => Step(outcome, [])
      else if ch == '[' then
        match ItemsAhead(t, ']')
        case Items(forms, rest) => Step(Read(Vector(forms)), rest)
        case Failed(outcome) => Step(outcome, [])
      else if ch == ')' || ch == ']' || ch == '}' then Step(Raised, t)
      else if IsMacro(ch) then Step(Other, t)
      else if ch == '+' || ch == '-' then
        // The character behind the sign is lost unless it is a digit.
        if t != [] && IsDigit(t[0]) then NumberAhead(ch, t) else TokenAhead(ch, if t == [] then t else t[1..])
      else if IsDigit(ch) then NumberAhead(ch, t)
      else TokenAhead(ch, t)
  }

  /** `ReadDelimitedList` */
  function ItemsAhead(s: string, delim: char): (r: Items)
    ensures r.Items? ==> |r.rest| < |s|
    ensures r.Failed? ==> !r.outcome.Read? && !r.outcome.Done?
    decreases |s|, 1
  {
    var r := FormAhead(s, true, delim);
    match r.outcome
    case Done => Items([], r.rest)
    case Read(form) =>
      // A null pointer among the items is followed.
      if form.Nil? then Failed(Other)
      else
        (match ItemsAhead(r.rest, delim)
         case Items(forms, rest) => Items([form] + forms, rest)
         case Failed(outcome) => Failed(outcome))
    case AtEof => Failed(Raised)
    case _ => Failed(r.outcome)
  }
}
