/** The reader as it consumes its input (src/Reader.c:86-214, 338-389, src/LineNumberReader.c:46-79). */
module ReaderStream {
  import opened Forms
  import opened Reader
  import opened Wrappers

  /** The reader's input, without its line and column counters. */
  class LineNumberReader {
    const text: string
    var pos: nat

    ghost predicate Valid()
      reads this
    {
      pos <= |text|
    }

    ghost function Ahead(): string
      requires Valid()
      reads this
    {
      text[pos..]
    }

    constructor (text: string)
      ensures Valid() && Ahead() == text
    {
      this.text, pos := text, 0;
    }

    /** `None` at the end of the file. */
    method Getcr() returns (ch: Option<char>)
      requires Valid()
      modifies this
      ensures Valid()
      ensures if old(Ahead()) == [] then ch == None && Ahead() == []
              else ch == Some(old(Ahead())[0]) && Ahead() == old(Ahead())[1..] && pos == old(pos) + 1
    {
      if pos == |text| { return None; }
      ch := Some(text[pos]);
      pos := pos + 1;
    }

    /** Puts back the character just read; at the end of the file there is none. */
    method Ungetcr(ch: Option<char>)
      requires Valid() && (ch.Some? ==> pos > 0 && text[pos - 1] == ch.value)
      modifies this
      ensures Valid() && Ahead() == (if ch.Some? then [ch.value] else []) + old(Ahead())
    {
      if ch.Some? { pos := pos - 1; }
    }

    /** `ReadToken`: characters go to the buffer until one ends the token. */
    method ReadToken(ch: char) returns (token: string)
      requires Valid()
      modifies this
      ensures Valid() && token == [ch] + old(Ahead())[..TokenLength(old(Ahead()))]
      ensures Ahead() == old(Ahead())[TokenLength(old(Ahead()))..]
    {
      ghost var s := Ahead();
      token := [ch];
      ghost var n := 0;
      while true
        invariant Valid() && n <= |s| && Ahead() == s[n..] && token == [ch] + s[..n]
        invariant TokenLength(s) == n + TokenLength(s[n..])
        decreases |s| - n
      {
        var ch2 := Getcr();
        if ch2.None? || EndsToken(ch2.value) {
          Ungetcr(ch2);
          return;
        }
        assert s[n..][1..] == s[n + 1..];
        token, n := token + [ch2.value], n + 1;
      }
    }

    /** `ReadNumber`, up to the interpretation of the buffer. */
    method ReadNumber(ch: char) returns (outcome: Outcome)
      requires Valid()
      modifies this
      ensures Valid() && Step(outcome, Ahead()) == NumberAhead(ch, old(Ahead()))
    {
      hide Valid, InterpretNumber;
      ghost var s := Ahead();
      var buffer := [ch];
      ghost var n := 0;
      while true
        invariant Valid() && n <= |s| && Ahead() == s[n..] && buffer == [ch] + s[..n]
        invariant NumberLength(s) == n + NumberLength(s[n..])
        decreases |s| - n
      {
        var ch2 := Getcr();
        if ch2.None? || EndsNumber(ch2.value) {
          Ungetcr(ch2);
          outcome := InterpretNumber(buffer);
          return;
        }
        assert s[n..][1..] == s[n + 1..];
        buffer, n := buffer + [ch2.value], n + 1;
      }
    }

    /** The outcome and, where reading can go on, the text left. */
    ghost predicate Agrees(outcome: Outcome, r: Step)
      requires Valid()
      reads this
    {
      outcome == r.outcome && (outcome.Read? || outcome.Done? ==> Ahead() == r.rest)
    }

    /** `read` */
    method ReadForm(eofIsError: bool, returnOn: char) returns (outcome: Outcome)
      requires Valid()
      modifies this
      ensures Valid() && Agrees(outcome, FormAhead(old(Ahead()), eofIsError, returnOn))
      decreases |Ahead()|, 2
    {
      ghost var s := Ahead();
      var ch := Getcr();
      assert ch.Some? ==> s == [ch.value] + Ahead();
      while ch.Some? && IsSpace(ch.value)
        invariant Valid() && |Ahead()| <= |s|
        invariant ch.None? ==> FormAhead(s, eofIsError, returnOn) == FormAhead([], eofIsError, returnOn)
        invariant ch.Some? ==> |Ahead()| < |s|
        invariant ch.Some? ==>
                    FormAhead(s, eofIsError, returnOn) == FormAhead([ch.value] + Ahead(), eofIsError, returnOn)
        decreases ch.Some?, |Ahead()|
      {
        ghost var t := Ahead();
        assert ([ch.value] + t)[1..] == t;
        ch := Getcr();
        assert ch.Some? ==> t == [ch.value] + Ahead();
      }
      if ch.None? { return if eofIsError then Raised else AtEof; }
      outcome := Dispatch(ch.value, eofIsError, returnOn);
    }

    /** `read` once it has a character that is no space. */
    method Dispatch(ch: char, eofIsError: bool, returnOn: char) returns (outcome: Outcome)
      requires Valid() && !IsSpace(ch)
      modifies this
      ensures Valid() && Agrees(outcome, FormAhead([ch] + old(Ahead()), eofIsError, returnOn))
      decreases |Ahead()|, 4
    {
      hide IsSpace, IsMacro;
      ghost var t := Ahead();
      assert ([ch] + t)[1..] == t;
      if ch == returnOn { return Done; }
      if ch == '(' {
        var items, end := ReadDelimitedList(')');
        return if end.Done? then Read(List(items)) else end;
      }
      if ch == '[' {
        var items, end := ReadDelimitedList(']');
        return if end.Done? then Read(Vector(items)) else end;
      }
      if ch == ')' || ch == ']' || ch == '}' { return Raised; }
      if IsMacro(ch) { return Other; }
      if ch == '+' || ch == '-' {
        var ch2 := Getcr();
        if ch2.Some? && IsDigit(ch2.value) {
          Ungetcr(ch2);
          outcome := ReadNumber(ch);
          return;
        }
      }
      if IsDigit(ch) {
        outcome := ReadNumber(ch);
        return;
      }
      var token := ReadToken(ch);
      return InterpretToken(token);
    }

    /** `ReadDelimitedList`: the forms up to the delimiter; `end` is `Done`, or how reading failed. */
    method ReadDelimitedList(delim: char) returns (forms: seq<Form>, end: Outcome)
      requires Valid()
      modifies this
      ensures Valid()
      ensures match ItemsAhead(old(Ahead()), delim)
              case Items(fs, rest) => end == Done && forms == fs && Ahead() == rest
              case Failed(outcome) => end == outcome
      decreases |Ahead()|, 3
    {
      ghost var s := Ahead();
      forms := [];
      while true
        invariant Valid() && |Ahead()| <= |s|
        invariant Prefixed(forms, ItemsAhead(Ahead(), delim)) == ItemsAhead(s, delim)
        decreases |Ahead()|
      {
        ghost var t := Ahead();
        end := ReadForm(true, delim);
        if end.AtEof? { return forms, Raised; }
        if !end.Read? { return; }
        if end.form.Nil? { return forms, Other; }
        PrefixedMore(forms, end.form, ItemsAhead(Ahead(), delim));
        forms := forms + [end.form];
      }
    }
  }

  /** The items of `rest` behind those already read. */
  function Prefixed(forms: seq<Form>, rest: Items): Items {
    match rest
    case Items(more, text) => Items(forms + more, text)
    case Failed(_) => rest
  }

  lemma PrefixedMore(forms: seq<Form>, form: Form, rest: Items)
    ensures Prefixed(forms, Prefixed([form], rest)) == Prefixed(forms + [form], rest)
  {
    match rest
    case Items(more, _) => assert forms + ([form] + more) == forms + [form] + more;
    case Failed(_) =>
  }
}
