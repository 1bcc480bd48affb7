/**
 * An XML document as the readers in the model see it: the sequence of nodes an
 * XmlReader walks through. Attributes carry their raw text; numbers are read
 * from and written to that text through a NumberFormat.
 */
module Xml {
  import opened Outcomes

  datatype Attr = Attr(name: string, value: string)

  datatype Token =
    | Start(name: string, attrs: seq<Attr>, isEmpty: bool)
    | End(name: string)
    | Other  // declaration, whitespace, text or comment: node types every reader skips

  /**
   * double.ToString() and double.Parse under the thread's culture. The model
   * does not fix the text format: `show` is the writer's half and `parse` the
   * reader's, None standing for the FormatException double.Parse throws.
   */
  datatype NumberFormat = NumberFormat(show: real -> string, parse: string -> Option<real>)

  /** The number double.Parse makes of the text double.ToString() writes for
      `x`: None when the text does not parse, and otherwise not always `x`
      itself, since the format may drop digits (the default format of .NET
      Framework keeps fifteen significant ones). */
  function Reread(nf: NumberFormat, x: real): Option<real>
  {
    nf.parse(nf.show(x))
  }

  /** `x` reads back exactly from the text written for it. */
  predicate ReadsBack(nf: NumberFormat, x: real)
  {
    Reread(nf, x) == Some(x)
  }

  /** double.Parse of an attribute's text. */
  function ParseDouble(nf: NumberFormat, s: string): Result<real>
  {
    match nf.parse(s)
    case Some(x) => Ok(x)
    case None => Err(BadNumber)
  }

  /** The value of the last attribute called `name`, which is the one a reader
      that visits the attributes in order leaves in force. */
  function Last(attrs: seq<Attr>, name: string): Option<string>
    decreases |attrs|
  {
    if |attrs| == 0 then None
    else
      var rest := Last(attrs[1..], name);
      if rest.Some? then rest
      else if attrs[0].name == name then Some(attrs[0].value)
      else None
  }

  /** The number the last `name` attribute holds, or `default` when there is
      none or its text is not a number. */
  function LastNumberOr(nf: NumberFormat, attrs: seq<Attr>, name: string, default: real): real
  {
    match Last(attrs, name)
    case Some(s) => (match nf.parse(s) case Some(x) => x case None => default)
    case None => default
  }

  /** The text test double.Parse applies. */
  function IsNumberIn(nf: NumberFormat): string -> bool
  {
    s => nf.parse(s).Some?
  }

  /** Every attribute called `name` satisfies `ok`. */
  predicate All(attrs: seq<Attr>, name: string, ok: string -> bool)
    decreases |attrs|
  {
    |attrs| == 0 || ((attrs[0].name == name ==> ok(attrs[0].value)) && All(attrs[1..], name, ok))
  }

  /** Every attribute called `name` holds a number. */
  predicate AllNumbers(nf: NumberFormat, attrs: seq<Attr>, name: string)
  {
    All(attrs, name, IsNumberIn(nf))
  }

  /** When every `name` attribute is acceptable, so is the last one. */
  lemma {:induction false} LastSatisfies(attrs: seq<Attr>, name: string, ok: string -> bool)
    requires All(attrs, name, ok)
    ensures Last(attrs, name).Some? ==> ok(Last(attrs, name).value)
    decreases |attrs|
  {
    if |attrs| > 0 {
      LastSatisfies(attrs[1..], name, ok);
    }
  }

  /** XmlReader.Read() from the node at `p`: the next node, or `|toks|` once the
      document is exhausted (then Read() returned false). */
  function Advance(toks: seq<Token>, p: nat): (q: nat)
    requires p <= |toks|
    ensures q <= |toks|
    ensures p < |toks| ==> q == p + 1
    ensures p == |toks| ==> q == p
  {
    if p < |toks| then p + 1 else |toks|
  }

  /** Moving the first element of a non-empty sequence to the end of what precedes it. */
  lemma ConsAfter<T>(front: seq<T>, s: seq<T>)
    requires |s| > 0
    ensures front + [s[0]] + s[1..] == front + s
  {
    assert front + s == front + ([s[0]] + s[1..]);
  }
}
