/** Values the reader and the printer have in common, and how they are written
    (src/Util.c:88-156, src/Numbers.c:17-28, src/Bool.c:20-28, src/Symbol.c:140-150, src/Keyword.c:129-136). */
module Forms {
  const MAX_LONG := 0x7FFF_FFFF_FFFF_FFFF
  const MIN_LONG := -0x8000_0000_0000_0000

  datatype Form =
    | Nil
    | Bool(b: bool)
    | Integer(val: int)
    | Symbol(name: string)
    | Keyword(name: string)
    | List(items: seq<Form>)
    | Vector(items: seq<Form>)

  function Digit(d: nat): char
    requires d < 10
  {
    ['0', '1', '2', '3', '4', '5', '6', '7', '8', '9'][d]
  }

  /** `%ld` of a number that is not negative. */
  function Decimal(n: nat): (s: string)
    ensures s != []
  {
    if n < 10 then [Digit(n)] else Decimal(n / 10) + [Digit(n % 10)]
  }

  function IntegerToString(val: int): string {
    if val < 0 then "-" + Decimal(-val) else Decimal(val)
  }

  /** What `PrintObject` writes. */
  function Print(f: Form): string
    decreases f
  {
    match f
    case Nil => ""
    case Bool(b) => if b then "true" else "false"
    case Integer(val) => IntegerToString(val)
    case Symbol(name) => name
    case Keyword(name) => ":" + name
    case List(items) => "(" + PrintItems(items) + ")"
    case Vector(items) => "[" + PrintItems(items) + "]"
  }

  /** The items with one space between each two. */
  function PrintItems(items: seq<Form>): string
    decreases items
  {
    if items == [] then ""
    else if |items| == 1 then Print(items[0])
    else Print(items[0]) + " " + PrintItems(items[1..])
  }

  /** No null pointer lies inside a collection, where the printer and the reader would follow it. */
  predicate Solid(f: Form)
    decreases f
  {
    match f
    case Nil => false
    case List(items) => forall i | 0 <= i < |items| :: Solid(items[i])
    case Vector(items) => forall i | 0 <= i < |items| :: Solid(items[i])
    case _ => true
  }

  class StringWriter {
    var buffer: string

    constructor ()
      ensures buffer == ""
    {
      buffer := "";
    }

    method AddString(s: string)
      modifies this
      ensures buffer == old(buffer) + s
    {
      buffer := buffer + s;
    }

    method AddChar(c: char)
      modifies this
      ensures buffer == old(buffer) + [c]
    {
      buffer := buffer + [c];
    }

    method Shrink(n: nat)
      modifies this
      ensures buffer == if |old(buffer)| < n then "" else old(buffer)[..|old(buffer)| - n]
    {
      buffer := if |buffer| < n then "" else buffer[..|buffer| - n];
    }
  }

  /** Each item with a space behind it. */
  ghost function Spaced(items: seq<Form>): string
    decreases |items|
  {
    if items == [] then "" else Spaced(items[..|items| - 1]) + Print(items[|items| - 1]) + " "
  }

  lemma {:induction false} SpacedFirst(items: seq<Form>)
    requires items != []
    ensures Spaced(items) == Print(items[0]) + " " + Spaced(items[1..])
    decreases |items|
  {
    if |items| > 1 {
      var front := items[..|items| - 1];
      SpacedFirst(front);
      assert front[1..] == items[1..][..|items| - 2];
    } else {
      assert items[..0] == [] && items[1..] == [];
    }
  }

  /** Without its last space, that is what is to be printed. */
  lemma {:induction false} SpacedShrinks(items: seq<Form>)
    requires items != []
    ensures Spaced(items) == PrintItems(items) + " "
    decreases |items|
  {
    SpacedFirst(items);
    if |items| > 1 { SpacedShrinks(items[1..]); }
  }

  /** `PrintObject`: every item is followed by a space, and the last space is taken back. */
  method PrintObject(sw: StringWriter, f: Form)
    requires Solid(f)
    modifies sw
    ensures sw.buffer == old(sw.buffer) + Print(f)
    decreases f, 1
  {
    hide Print, PrintItems;
    PrintCollection(f);
    if f.List? && f.items == [] {
      sw.AddString("()");
    } else if f.List? {
      sw.AddChar('(');
      PrintSpaced(sw, f, f.items);
      sw.AddChar(')');
    } else if f.Vector? && f.items == [] {
      sw.AddString("[]");
    } else if f.Vector? {
      sw.AddChar('[');
      PrintSpaced(sw, f, f.items);
      sw.AddChar(']');
    } else {
      sw.AddString(Print(f));
    }
  }

  lemma PrintCollection(f: Form)
    ensures f.List? ==> Print(f) == "(" + PrintItems(f.items) + ")" && (f.items == [] ==> Print(f) == "()")
    ensures f.Vector? ==> Print(f) == "[" + PrintItems(f.items) + "]" && (f.items == [] ==> Print(f) == "[]")
  {
  }

  /** The loops over the items of a list or vector. */
  method PrintSpaced(sw: StringWriter, ghost f: Form, items: seq<Form>)
    requires (f.List? || f.Vector?) && items == f.items != [] && forall i | 0 <= i < |items| :: Solid(items[i])
    modifies sw
    ensures sw.buffer == old(sw.buffer) + PrintItems(items)
    decreases f, 0
  {
    hide PrintItems;
    var i := 0;
    while i < |items|
      invariant i <= |items| && sw.buffer == old(sw.buffer) + Spaced(items[..i])
    {
      PrintObject(sw, items[i]);
      sw.AddChar(' ');
      assert items[..i + 1][..i] == items[..i];
      i := i + 1;
    }
    assert items[..i] == items;
    SpacedShrinks(items);
    sw.Shrink(1);
  }
}
