/**
 * `SO2DB::Formatter`: holds the source path and the field delimiter, resolves the columns of its
 * table through the attribute lookup, and streams the rows of the source into a caller's writer.
 */
module So2db {
  import opened Wrappers
  import opened Strings
  import opened Sorting
  import opened Reader
  import opened Records
  import opened Naming

  /** The path a formatter gets when none is given. */
  const DefaultPath: string := ""

  /** The delimiter a formatter gets when none is given: the vertical tab, character 11. */
  const DefaultDelimiter: string := [11 as char]

  /** Why `format` stops before writing anything. */
  datatype FormatError = CannotOpen(path: string)

  /** The caller's writer: everything written so far, in order. It is never closed here. */
  class Sink {
    var text: string

    constructor ()
      ensures text == ""
    {
      text := "";
    }

    /** Appends `s` to what has been written. */
    method Write(s: string)
      modifies this
      ensures text == old(text) + s
    {
      text := text + s;
    }
  }

  class Formatter {
    var path: string
    var delimiter: string

    /** `Formatter.new(path, delimiter)`: both are stored as given. */
    constructor (path: string, delimiter: string)
      ensures this.path == path && this.delimiter == delimiter
    {
      this.path := path;
      this.delimiter := delimiter;
    }

    /** `Formatter.new(path)`: the delimiter defaults to the vertical tab. */
    constructor WithPath(path: string)
      ensures this.path == path && delimiter == DefaultDelimiter
    {
      this.path := path;
      delimiter := DefaultDelimiter;
    }

    /** `Formatter.new`: empty path, vertical-tab delimiter. */
    constructor Default()
      ensures path == DefaultPath && delimiter == DefaultDelimiter
    {
      path := DefaultPath;
      delimiter := DefaultDelimiter;
    }

    /** `file_name`: the last segment of the configured path. */
    method FileName() returns (r: string)
      ensures r == Naming.FileName(path)
      ensures r == "/" || '/' !in r
    {
      r := Naming.FileName(path);
    }

    /**
     * `value_str`: the descriptor of this formatter's table, with the columns the lookup gives
     * for the table name.
     */
    method ValueStr(lookup: string -> seq<string>) returns (r: string)
      ensures r == Naming.ValueStr(path, lookup(BaseName(path)))
      ensures NoCapitals(r)
    {
      r := Naming.ValueStr(path, lookup(BaseName(path)));
      ValueStrNoCapitals(path, lookup(BaseName(path)));
    }

    /** `format_node` with this formatter's delimiter. */
    method FormatNode(node: Node, columns: seq<string>) returns (r: string)
      ensures r == Records.FormatNode(node, columns, delimiter)
    {
      r := Records.FormatNode(node, columns, delimiter);
    }

    /**
     * `format_from_stream`: walks the nodes once, front to back, and for each row start writes
     * its record over the sorted columns and a newline to `sink`; all other nodes are skipped.
     * Returns how many lines were written.
     */
    method FormatFromStream(nodes: seq<Node>, columns: seq<string>, sink: Sink) returns (count: nat)
      modifies sink
      ensures sink.text == old(sink.text) + Concat(Lines(nodes, Sort(columns), delimiter))
      ensures count == |Lines(nodes, Sort(columns), delimiter)| == |RowStarts(nodes)|
    {
      var sorted := Sort(columns);
      count := 0;
      var i := 0;
      while i < |nodes|
        invariant 0 <= i <= |nodes|
        invariant sink.text == old(sink.text) + Concat(Lines(nodes[..i], sorted, delimiter))
        invariant count == |Lines(nodes[..i], sorted, delimiter)|
      {
        var node := nodes[i];
        ghost var done := Lines(nodes[..i], sorted, delimiter);
        LinesStep(nodes, i, sorted, delimiter);
        if ElementStart(node) {
          var record := FormatNode(node, sorted);
          var line := record + "\n";
          sink.Write(line);
          count := count + 1;
          ConcatSnoc(done, line);
          AppendAssociative(old(sink.text), Concat(done), line);
        } else {
          assert done + [] == done;
        }
        i := i + 1;
      }
      assert nodes[..i] == nodes;
      LinesAreRowStarts(nodes, sorted, delimiter);
    }

    /**
     * `format`: looks up the columns of the table named by the file's base name (case kept),
     * opens the path, and hands the nodes, those columns and `sink` to FormatFromStream,
     * returning what it returns. A path that cannot be opened fails before anything is written.
     */
    method Format(lookup: string -> seq<string>, open: string -> Option<seq<Node>>, sink: Sink)
      returns (r: Result<nat, FormatError>)
      modifies sink
      ensures open(path).None? ==> r == Err(CannotOpen(path)) && sink.text == old(sink.text)
      ensures open(path).Some? ==>
        var lines := Lines(open(path).value, Sort(lookup(BaseName(path))), delimiter);
        r == Ok(|lines|) && sink.text == old(sink.text) + Concat(lines)
    {
      var columns := lookup(BaseName(path));
      var source := open(path);
      match source {
        case None =>
          r := Err(CannotOpen(path));
        case Some(nodes) =>
          var count := FormatFromStream(nodes, columns, sink);
          r := Ok(count);
      }
    }
  }
}
