/**
 * The record side of the formatter: recognising row starts (`element_start?`), turning one row
 * into a delimited record (`format_node`), and the lines a whole node stream produces.
 */
module Records {
  import opened Wrappers
  import opened Strings
  import opened Sanitizer
  import opened Reader

  /** The tag name of a data row. */
  const RowName: string := "row"

  /** `element_start?`: the reader is at the start of a `row` element. */
  predicate ElementStart(node: Node)
  {
    node.nodeType == Element && node.name == RowName
  }

  /** The field for one column: the scrubbed value when present, empty (and never scrubbed) when absent. */
  function Field(node: Node, column: string): string
  {
    match Attribute(node, column)
    case Some(v) => Scrub(v)
    case None => ""
  }

  /** The fields of a row, one per column, in column order. */
  function Fields(node: Node, columns: seq<string>): (r: seq<string>)
    ensures |r| == |columns|
    ensures forall i :: 0 <= i < |r| ==> Clean(r[i])
  {
    if |columns| == 0 then [] else [Field(node, columns[0])] + Fields(node, columns[1..])
  }

  /** `format_node`: the row's fields joined by the delimiter. */
  function FormatNode(node: Node, columns: seq<string>, delimiter: string): string
  {
    Join(Fields(node, columns), delimiter)
  }

  /** Field i is the scrubbed attribute named by column i, or empty when the row lacks it. */
  lemma {:induction false} FieldsAt(node: Node, columns: seq<string>, i: nat)
    requires i < |columns|
    ensures Fields(node, columns)[i] == (if columns[i] in node.attributes then Scrub(node.attributes[columns[i]]) else "")
  {
    if i > 0 {
      FieldsAt(node, columns[1..], i - 1);
    }
  }

  /**
   * With a one-character delimiter that no field contains, the record splits back into exactly
   * one field per column, in column order: the scrubbed value or the empty string.
   */
  lemma FormatNodeSplits(node: Node, columns: seq<string>, d: char)
    requires |columns| > 0
    requires forall i :: 0 <= i < |columns| ==> d !in Field(node, columns[i])
    ensures |Split(FormatNode(node, columns, [d]), d)| == |columns|
    ensures forall i :: 0 <= i < |columns| ==>
      Split(FormatNode(node, columns, [d]), d)[i]
        == (if columns[i] in node.attributes then Scrub(node.attributes[columns[i]]) else "")
  {
    var fs := Fields(node, columns);
    forall i | 0 <= i < |fs| ensures d !in fs[i] && fs[i] == Field(node, columns[i]) {
      FieldsAt(node, columns, i);
    }
    SplitJoin(fs, d);
    forall i | 0 <= i < |columns|
      ensures fs[i] == (if columns[i] in node.attributes then Scrub(node.attributes[columns[i]]) else "")
    {
      FieldsAt(node, columns, i);
    }
  }

  /** Only the listed columns are consulted: rows that agree on them give the same record. */
  lemma {:induction false} FormatNodeIgnoresOtherAttributes(a: Node, b: Node, columns: seq<string>, delimiter: string)
    requires forall k :: k in columns ==> (k in a.attributes <==> k in b.attributes)
    requires forall k :: k in columns && k in a.attributes ==> a.attributes[k] == b.attributes[k]
    ensures FormatNode(a, columns, delimiter) == FormatNode(b, columns, delimiter)
  {
    FieldsAgree(a, b, columns);
  }

  lemma {:induction false} FieldsAgree(a: Node, b: Node, columns: seq<string>)
    requires forall k :: k in columns ==> (k in a.attributes <==> k in b.attributes)
    requires forall k :: k in columns && k in a.attributes ==> a.attributes[k] == b.attributes[k]
    ensures Fields(a, columns) == Fields(b, columns)
  {
    if |columns| > 0 {
      assert columns[0] in columns;
      FieldsAgree(a, b, columns[1..]);
    }
  }

  /** One output line: the record and its terminating newline. */
  function Line(node: Node, columns: seq<string>, delimiter: string): string
  {
    FormatNode(node, columns, delimiter) + "\n"
  }

  /** The lines written for a node stream read front to back: one per row start, in order. */
  function Lines(nodes: seq<Node>, columns: seq<string>, delimiter: string): (r: seq<string>)
    ensures |r| <= |nodes|
  {
    if |nodes| == 0 then []
    else
      var last := nodes[|nodes| - 1];
      Lines(nodes[..|nodes| - 1], columns, delimiter)
        + (if ElementStart(last) then [Line(last, columns, delimiter)] else [])
  }

  /** Reading one more node adds its line when it is a row start, and nothing otherwise. */
  lemma LinesStep(nodes: seq<Node>, i: nat, columns: seq<string>, delimiter: string)
    requires i < |nodes|
    ensures Lines(nodes[..i + 1], columns, delimiter)
      == Lines(nodes[..i], columns, delimiter)
        + (if ElementStart(nodes[i]) then [Line(nodes[i], columns, delimiter)] else [])
  {
    assert nodes[..i + 1][..i] == nodes[..i];
  }

  /** The row-start nodes of the stream, in stream order. */
  function RowStarts(nodes: seq<Node>): (r: seq<Node>)
    ensures |r| <= |nodes|
    ensures forall i :: 0 <= i < |r| ==> ElementStart(r[i])
  {
    if |nodes| == 0 then []
    else (if ElementStart(nodes[0]) then [nodes[0]] else []) + RowStarts(nodes[1..])
  }

  /** The row starts of consecutive pieces are those of each piece, one after the other. */
  lemma {:induction false} RowStartsAppend(a: seq<Node>, b: seq<Node>)
    ensures RowStarts(a + b) == RowStarts(a) + RowStarts(b)
  {
    if |a| == 0 {
      assert a + b == b;
    } else {
      assert (a + b)[1..] == a[1..] + b;
      RowStartsAppend(a[1..], b);
    }
  }

  /** A stretch of the stream holding no row start contributes nothing. */
  lemma {:induction false} RowStartsNone(nodes: seq<Node>)
    requires forall i :: 0 <= i < |nodes| ==> !ElementStart(nodes[i])
    ensures RowStarts(nodes) == []
  {
    if |nodes| > 0 {
      RowStartsNone(nodes[1..]);
    }
  }

  /** Lines of consecutive pieces of a stream are the lines of each piece, one after the other. */
  lemma {:induction false} LinesAppend(a: seq<Node>, b: seq<Node>, columns: seq<string>, delimiter: string)
    ensures Lines(a + b, columns, delimiter) == Lines(a, columns, delimiter) + Lines(b, columns, delimiter)
    decreases |b|
  {
    if |b| == 0 {
      assert a + b == a;
    } else {
      var b' := b[..|b| - 1];
      assert (a + b)[..|a + b| - 1] == a + b';
      assert (a + b)[|a + b| - 1] == b[|b| - 1];
      LinesAppend(a, b', columns, delimiter);
    }
  }

  /**
   * Exactly one line per row start, in stream order, and nothing for any other node: the `<data>`
   * wrapper, end tags, text and differently named elements are skipped.
   */
  lemma {:induction false} LinesAreRowStarts(nodes: seq<Node>, columns: seq<string>, delimiter: string)
    ensures |Lines(nodes, columns, delimiter)| == |RowStarts(nodes)|
    ensures forall k :: 0 <= k < |RowStarts(nodes)| ==>
      Lines(nodes, columns, delimiter)[k] == Line(RowStarts(nodes)[k], columns, delimiter)
  {
    if |nodes| > 0 {
      var h := [nodes[0]];
      assert nodes == h + nodes[1..];
      LinesAppend(h, nodes[1..], columns, delimiter);
      LinesAreRowStarts(nodes[1..], columns, delimiter);
      assert h[..0] == [];
    }
  }

  /** A line with its single newline at the end: what one `gets` reads. */
  predicate WellFormedLine(l: string)
  {
    |l| > 0 && l[|l| - 1] == '\n' && forall i :: 0 <= i < |l| - 1 ==> l[i] != '\n'
  }

  /**
   * No field value can end a record early: with a delimiter free of newlines, every line holds
   * exactly one newline, the last character.
   */
  lemma LineWellFormed(node: Node, columns: seq<string>, delimiter: string)
    requires '\n' !in delimiter
    ensures WellFormedLine(Line(node, columns, delimiter))
  {
    var fs := Fields(node, columns);
    forall i | 0 <= i < |fs| ensures '\n' !in fs[i] {
      assert Clean(fs[i]);
    }
    JoinExcludes(fs, delimiter, '\n');
  }

  /** `gets`: the text up to and including the first newline (all of it when there is none). */
  function FirstLine(t: string): (r: string)
    ensures |r| <= |t| && r == t[..|r|]
    ensures |t| > 0 ==> |r| > 0
  {
    if |t| == 0 then ""
    else if t[0] == '\n' then "\n"
    else [t[0]] + FirstLine(t[1..])
  }

  /** Reads `t` with `gets` until it is exhausted. */
  function ReadLines(t: string): seq<string>
    decreases |t|
  {
    if |t| == 0 then [] else [FirstLine(t)] + ReadLines(t[|FirstLine(t)|..])
  }

  lemma {:induction false} FirstLineOf(l: string, rest: string)
    requires WellFormedLine(l)
    ensures FirstLine(l + rest) == l
  {
    if l[0] != '\n' {
      assert (l + rest)[1..] == l[1..] + rest;
      FirstLineOf(l[1..], rest);
      assert l == [l[0]] + l[1..];
    }
  }

  /** Text made of well-formed lines is read back, with `gets`, as exactly those lines. */
  lemma {:induction false} ReadLinesConcat(ls: seq<string>)
    requires forall i :: 0 <= i < |ls| ==> WellFormedLine(ls[i])
    ensures ReadLines(Concat(ls)) == ls
  {
    if |ls| > 0 {
      var t := Concat(ls);
      FirstLineOf(ls[0], Concat(ls[1..]));
      assert t[|ls[0]|..] == Concat(ls[1..]);
      ReadLinesConcat(ls[1..]);
      assert ls == [ls[0]] + ls[1..];
    }
  }

  /**
   * What a reader of the sink gets back: one `gets` per row start, each returning that row's
   * record and newline.
   */
  lemma LinesReadBack(nodes: seq<Node>, columns: seq<string>, delimiter: string)
    requires '\n' !in delimiter
    ensures ReadLines(Concat(Lines(nodes, columns, delimiter))) == Lines(nodes, columns, delimiter)
  {
    var ls := Lines(nodes, columns, delimiter);
    LinesAreRowStarts(nodes, columns, delimiter);
    forall i | 0 <= i < |ls| ensures WellFormedLine(ls[i]) {
      LineWellFormed(RowStarts(nodes)[i], columns, delimiter);
    }
    ReadLinesConcat(ls);
  }
}
