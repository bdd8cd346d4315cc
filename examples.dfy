/** The formatter's unit-test cases, stated about the model. */
module FormatterExamples {
  import opened Wrappers
  import opened Strings
  import opened Sorting
  import opened Sanitizer
  import opened Reader
  import opened Records
  import opened Naming
  import opened So2db

  const VT: char := 11 as char

  /** `scrub("<asdf\nfdsa\r>")` is `"&lt;asdffdsa&gt;"`. */
  lemma ScrubExample()
    ensures Scrub("<asdf\nfdsa\r>") == "&lt;asdffdsa&gt;"
  {
    ScrubInputSpelling();
    ScrubPieces();
    ScrubOutputSpelling();
  }

  lemma ScrubInputSpelling()
    ensures "<" + ("asdf" + ("\n" + ("fdsa" + ("\r" + ">")))) == "<asdf\nfdsa\r>"
  {
  }

  lemma ScrubOutputSpelling()
    ensures "&lt;" + ("asdf" + ("" + ("fdsa" + ("" + "&gt;")))) == "&lt;asdffdsa&gt;"
  {
    var l := "&lt;" + ("asdf" + ("" + ("fdsa" + ("" + "&gt;"))));
    forall i | 0 <= i < 16 ensures l[i] == "&lt;asdffdsa&gt;"[i] {}
  }

  lemma ScrubPieces()
    ensures Scrub("<" + ("asdf" + ("\n" + ("fdsa" + ("\r" + ">")))))
      == "&lt;" + ("asdf" + ("" + ("fdsa" + ("" + "&gt;"))))
  {
    ScrubAppend("\r", ">");
    ScrubAppend("fdsa", "\r" + ">");
    ScrubAppend("\n", "fdsa" + ("\r" + ">"));
    ScrubAppend("asdf", "\n" + ("fdsa" + ("\r" + ">")));
    ScrubAppend("<", "asdf" + ("\n" + ("fdsa" + ("\r" + ">"))));
    ScrubCleanIdentity("asdf");
    ScrubCleanIdentity("fdsa");
    assert Scrub("<") == "&lt;" && Scrub(">") == "&gt;";
    assert Scrub("\n") == "" && Scrub("\r") == "";
  }

  lemma ElementStartExamples(attrs: map<string, string>)
    ensures ElementStart(Node(Element, "row", attrs))
    ensures !ElementStart(Node(EndElement, "row", attrs))
    ensures !ElementStart(Node(Element, "badges", attrs))
  {
  }

  lemma FormatNodeExample()
    ensures FormatNode(Node(Element, "row", map["Id" := "1", "Name" := "Anony Mous"]), ["Id", "Name"], [VT])
      == "1" + [VT] + "Anony Mous"
  {
    var node := Node(Element, "row", map["Id" := "1", "Name" := "Anony Mous"]);
    ScrubCleanIdentity("1");
    ScrubCleanIdentity("Anony Mous");
    TwoFields(node, "Id", "Name");
    JoinPair("1", "Anony Mous", [VT]);
  }

  lemma FormatNodeMissingExample()
    ensures FormatNode(Node(Element, "row", map["Id" := "1"]), ["Id", "Name"], [VT]) == "1" + [VT]
  {
    var node := Node(Element, "row", map["Id" := "1"]);
    ScrubCleanIdentity("1");
    assert "Name" !in node.attributes;
    TwoFields(node, "Id", "Name");
    JoinPair("1", "", [VT]);
    assert "1" + [VT] + "" == "1" + [VT];
  }

  /** The fields of a node over two columns. */
  lemma TwoFields(node: Node, a: string, b: string)
    ensures Fields(node, [a, b]) == [Field(node, a), Field(node, b)]
  {
    assert [a, b][1..] == [b];
    assert [b][1..] == [];
  }

  lemma JoinPair(x: string, y: string, sep: string)
    ensures Join([x, y], sep) == x + sep + y
  {
    assert [x, y][1..] == [y];
  }

  /**
   * The reader's view of the stream test's document: the `<data>` wrapper, a differently named
   * element, the row, and the wrapper's end.
   */
  function StreamDocument(row: Node): seq<Node>
  {
    [ Node(Element, "data", map[]), Node(Whitespace, "#text", map[]),
      Node(Element, "fake-row", map["id" := "3"]), Node(Whitespace, "#text", map[])]
    + [row]
    + [Node(Whitespace, "#text", map[]), Node(EndElement, "data", map[])]
  }

  /** The row start of the stream test, carrying four of the five requested columns. */
  predicate IsStreamRow(row: Node, id: string, userId: string, name: string, date: string)
  {
    && row.nodeType == Element && row.name == "row"
    && "Missing" !in row.attributes
    && "Id" in row.attributes && row.attributes["Id"] == id
    && "UserId" in row.attributes && row.attributes["UserId"] == userId
    && "Name" in row.attributes && row.attributes["Name"] == name
    && "Date" in row.attributes && row.attributes["Date"] == date
  }

  /** The caller's column order does not matter: fields come out in sorted column order. */
  lemma SortedColumnsExample()
    ensures Sort(["Id", "UserId", "Name", "Date", "Missing"]) == SortedTestColumns()
  {
    TestColumnsSorted();
    SortIsUnique(["Id", "UserId", "Name", "Date", "Missing"], SortedTestColumns());
  }

  lemma TestColumnsSorted()
    ensures Sorted(SortedTestColumns())
  {
    var sorted := ["Date", "Id", "Missing", "Name", "UserId"];
    assert LexLe("Date", "Id") && LexLe("Id", "Missing") && LexLe("Missing", "Name") && LexLe("Name", "UserId");
    forall i, j | 0 <= i < j < 5 ensures LexLe(sorted[i], sorted[j]) {
      if j > i + 1 {
        assert LexLe(sorted[i], sorted[j - 1]) by {
          if j - 1 > i + 1 { LexLeTransitive(sorted[i], sorted[i + 1], sorted[j - 1]); }
          if j - 1 > i + 2 { LexLeTransitive(sorted[i], sorted[i + 2], sorted[j - 1]); }
        }
        LexLeTransitive(sorted[i], sorted[j - 1], sorted[j]);
      }
    }
  }

  lemma StreamRowFields(row: Node, id: string, userId: string, name: string, date: string)
    requires IsStreamRow(row, id, userId, name, date)
    requires Clean(id) && Clean(userId) && Clean(name) && Clean(date)
    ensures Fields(row, ["Date", "Id", "Missing", "Name", "UserId"]) == [date, id, "", name, userId]
  {
    var cols := ["Date", "Id", "Missing", "Name", "UserId"];
    ScrubCleanIdentity(id);
    ScrubCleanIdentity(userId);
    ScrubCleanIdentity(name);
    ScrubCleanIdentity(date);
    forall i | 0 <= i < 5 ensures Fields(row, cols)[i] == [date, id, "", name, userId][i] {
      FieldsAt(row, cols, i);
    }
  }

  /** The fields in the order the stream test expects: the test's columns, sorted. */
  function SortedTestColumns(): seq<string>
  {
    ["Date", "Id", "Missing", "Name", "UserId"]
  }

  /** Neither the wrapper nor the differently named element yields a line. */
  lemma StreamDocumentRowStarts(row: Node)
    requires ElementStart(row)
    ensures RowStarts(StreamDocument(row)) == [row]
  {
    var pre := [ Node(Element, "data", map[]), Node(Whitespace, "#text", map[]),
      Node(Element, "fake-row", map["id" := "3"]), Node(Whitespace, "#text", map[])];
    var post := [Node(Whitespace, "#text", map[]), Node(EndElement, "data", map[])];
    RowStartsAppend(pre + [row], post);
    RowStartsAppend(pre, [row]);
    RowStartsNone(pre);
    RowStartsNone(post);
    assert RowStarts([row]) == [row] by {
      assert [row][1..] == [];
    }
  }

  /**
   * The stream test: only the row start yields a line; its fields follow the sorted columns, the
   * absent `Missing` column gives an empty field, and the line ends in a newline.
   */
  lemma FormatFromStreamExample(row: Node, id: string, userId: string, name: string, date: string)
    requires IsStreamRow(row, id, userId, name, date)
    requires Clean(id) && Clean(userId) && Clean(name) && Clean(date)
    ensures Lines(StreamDocument(row), SortedTestColumns(), [VT]) == [Join([date, id, "", name, userId], [VT]) + "\n"]
  {
    var cols := SortedTestColumns();
    StreamDocumentRowStarts(row);
    LinesAreRowStarts(StreamDocument(row), cols, [VT]);
    StreamRowFields(row, id, userId, name, date);
  }

  lemma NamingExamples()
    ensures FileName("/tmp/Badges.xml") == "Badges.xml"
    ensures BaseName("/tmp/Badges.xml") == "Badges"
  {
    BaseNameOf("/tmp", "Badges", "xml");
    TestPathSpelling();
  }

  /** The table name without a directory part, and without an extension. */
  lemma TableNameShapes()
    ensures BaseName("Badges.xml") == "Badges"
    ensures BaseName("/tmp/Badges") == "Badges"
  {
    BadgesPlain();
    BaseNameOfPlain("Badges", "xml");
    TestPathSpelling();
    BaseNameWithoutExtension("/tmp", "Badges");
    NoExtensionSpelling();
  }

  lemma BadgesPlain()
    ensures '/' !in "Badges" && '/' !in "xml" && '.' !in "xml"
    ensures forall i :: 0 < i < |"Badges"| ==> "Badges"[i] != '.'
  {
  }

  lemma NoExtensionSpelling()
    ensures "/tmp" + "/" + "Badges" == "/tmp/Badges"
  {
  }

  lemma TestValuesClean()
    ensures Clean("1") && Clean("2") && Clean("Autobiographer") && Clean("2010-07-20T19:07:22.990")
  {
  }

  lemma TestPathSpelling()
    ensures "/tmp" + "/" + "Badges" + "." + "xml" == "/tmp/Badges.xml"
    ensures "Badges" + "." + "xml" == "Badges.xml"
  {
  }

  lemma SnakeUserId()
    ensures SnakeCase("UserId") == "user_id"
  {
    UserIdWords();
    SnakeWords(None, ["User", "Id"]);
    UserIdLowerWords();
  }

  lemma UserIdWords()
    ensures IsWord("User") && IsWord("Id")
    ensures Concat(["User", "Id"]) == "UserId"
  {
    assert ["User", "Id"][1..] == ["Id"];
    assert ["Id"][1..] == [];
  }

  lemma UserIdLowerWords()
    ensures Join(LowerEach(["User", "Id"]), "_") == "user_id"
  {
    assert ["User", "Id"][1..] == ["Id"];
    assert ["Id"][1..] == [];
    assert Lower("User") == "user" && Lower("Id") == "id";
    JoinPair("user", "id", "_");
  }

  lemma SnakeSingleWords()
    ensures SnakeCase("Id") == "id" && SnakeCase("Name") == "name" && SnakeCase("Date") == "date"
  {
  }

  lemma SnakeCaseExamples()
    ensures SnakeAll(["Id", "UserId", "Name", "Date"]) == ["id", "user_id", "name", "date"]
  {
    SnakeUserId();
    SnakeSingleWords();
    var cols := ["Id", "UserId", "Name", "Date"];
    assert cols[1..] == ["UserId", "Name", "Date"] && cols[1..][1..] == ["Name", "Date"];
    assert cols[1..][1..][1..] == ["Date"] && cols[1..][1..][1..][1..] == [];
  }

  lemma DescriptorColumnsSorted()
    ensures Sorted(["date", "id", "name", "user_id"])
  {
    var cols := ["date", "id", "name", "user_id"];
    assert LexLe("date", "id") && LexLe("id", "name") && LexLe("name", "user_id");
    forall i, j | 0 <= i < j < 4 ensures LexLe(cols[i], cols[j]) {
      if j > i + 1 {
        assert LexLe(cols[i], cols[j - 1]) by {
          if j - 1 > i + 1 { LexLeTransitive(cols[i], cols[i + 1], cols[j - 1]); }
        }
        LexLeTransitive(cols[i], cols[j - 1], cols[j]);
      }
    }
  }

  /** `value_str` of `/tmp/Badges.xml` with the Badges columns is `badges(date,id,name,user_id)`. */
  lemma ValueStrExample()
    ensures ValueStr("/tmp/Badges.xml", ["Id", "UserId", "Name", "Date"]) == "badges(date,id,name,user_id)"
  {
    BadgesColumnsPermuted();
    DescriptorColumnsSorted();
    ValueStrColumns("/tmp/Badges.xml", ["Id", "UserId", "Name", "Date"], ["date", "id", "name", "user_id"]);
    NamingExamples();
    LowerBadges();
    JoinDescriptorColumns();
    DescriptorSpelling();
  }

  /** The snake-case Badges columns, in any order, are the descriptor's columns. */
  lemma BadgesColumnsPermuted()
    ensures multiset(SnakeAll(["Id", "UserId", "Name", "Date"])) == multiset(["date", "id", "name", "user_id"])
  {
    SnakeCaseExamples();
    FourRearranged("id", "user_id", "name", "date");
  }

  lemma FourRearranged(a: string, b: string, c: string, d: string)
    ensures multiset([a, b, c, d]) == multiset([d, a, c, b])
  {
    assert multiset([a, b, c, d]) == multiset{a, b, c, d};
    assert multiset([d, a, c, b]) == multiset{d, a, c, b};
  }

  lemma LowerBadges()
    ensures Lower("Badges") == "badges"
  {
  }

  lemma JoinDescriptorColumns()
    ensures Join(["date", "id", "name", "user_id"], ",") == "date,id,name,user_id"
  {
    var cols := ["date", "id", "name", "user_id"];
    assert cols[1..] == ["id", "name", "user_id"] && cols[1..][1..] == ["name", "user_id"];
    assert cols[1..][1..][1..] == ["user_id"];
    assert Join(cols, ",") == "date" + "," + ("id" + "," + ("name" + "," + "user_id"));
  }

  lemma DescriptorSpelling()
    ensures "badges" + "(" + "date,id,name,user_id" + ")" == "badges(date,id,name,user_id)"
  {
  }

  /** `Formatter.new` with and without arguments. */
  method ConstructorClient()
  {
    var f := new Formatter.Default();
    assert f.path == "" && f.delimiter == [VT];
    var g := new Formatter("/my/test/path", [12 as char]);
    assert g.path == "/my/test/path" && g.delimiter == [12 as char];
    var h := new Formatter.WithPath("/tmp/Badges.xml");
    var name := h.FileName();
    NamingExamples();
    assert name == "Badges.xml";
  }

  /** When a stream yields a single line, one `gets` on the writer returns exactly that line. */
  lemma ReadBackSingleLine(nodes: seq<Node>, columns: seq<string>, delimiter: string, line: string)
    requires '\n' !in delimiter
    requires Lines(nodes, columns, delimiter) == [line]
    ensures FirstLine(Concat([line])) == line
  {
    LinesReadBack(nodes, columns, delimiter);
    assert Concat([line]) == line + Concat([]);
  }

  /** The row of the stream test's document. */
  function TestRow(): Node
  {
    Node(Element, "row", map["Id" := "1", "UserId" := "2", "Name" := "Autobiographer", "Date" := "2010-07-20T19:07:22.990"])
  }

  /** The line the stream test expects: the values in sorted column order, joined by tabs. */
  function TestLine(): string
  {
    Join(["2010-07-20T19:07:22.990", "1", "", "Autobiographer", "2"], [VT]) + "\n"
  }

  lemma TestRowShape()
    ensures IsStreamRow(TestRow(), "1", "2", "Autobiographer", "2010-07-20T19:07:22.990")
  {
  }

  lemma TestStreamLines()
    ensures Lines(StreamDocument(TestRow()), SortedTestColumns(), [VT]) == [TestLine()]
  {
    TestValuesClean();
    TestRowShape();
    FormatFromStreamExample(TestRow(), "1", "2", "Autobiographer", "2010-07-20T19:07:22.990");
  }

  /** What the writer holds after the stream test, and what one `gets` on it returns. */
  lemma StreamWritten(row: Node, id: string, userId: string, name: string, date: string, text: string)
    requires IsStreamRow(row, id, userId, name, date)
    requires Clean(id) && Clean(userId) && Clean(name) && Clean(date)
    requires text == "" + Concat(Lines(StreamDocument(row), SortedTestColumns(), [VT]))
    ensures |Lines(StreamDocument(row), SortedTestColumns(), [VT])| == 1
    ensures FirstLine(text) == Join([date, id, "", name, userId], [VT]) + "\n"
  {
    var expected := Join([date, id, "", name, userId], [VT]) + "\n";
    FormatFromStreamExample(row, id, userId, name, date);
    ReadBackSingleLine(StreamDocument(row), SortedTestColumns(), [VT], expected);
    assert "" + Concat([expected]) == Concat([expected]);
  }

  /**
   * The stream test against the class, for any clean row values and the columns in any order:
   * the writer then holds one line, and one `gets` on it reads the row's record back.
   */
  method StreamClient(columns: seq<string>, id: string, userId: string, name: string, date: string)
    requires multiset(columns) == multiset(SortedTestColumns())
    requires Clean(id) && Clean(userId) && Clean(name) && Clean(date)
  {
    var formatter := new Formatter.WithPath("/tmp/Badges.xml");
    var w := new Sink();
    var row := Node(Element, "row", map["Id" := id, "UserId" := userId, "Name" := name, "Date" := date]);
    assert IsStreamRow(row, id, userId, name, date);
    TestColumnsSorted();
    SortIsUnique(columns, SortedTestColumns());
    var n := formatter.FormatFromStream(StreamDocument(row), columns, w);
    StreamWritten(row, id, userId, name, date, w.text);
    assert n == 1;
    assert FirstLine(w.text) == Join([date, id, "", name, userId], [VT]) + "\n";
  }

  /** The `format` test: the lookup is asked for `Badges`, the path is opened, and the stream's result comes back. */
  method FormatClient(lookup: string -> seq<string>, nodes: seq<Node>)
  {
    var formatter := new Formatter.WithPath("/tmp/Badges.xml");
    var out := new Sink();
    NamingExamples();
    var r := formatter.Format(lookup, (p: string) => if p == "/tmp/Badges.xml" then Some(nodes) else None, out);
    assert r == Ok(|Lines(nodes, Sort(lookup("Badges")), [VT])|);
    var missing := new Formatter.WithPath("/no/such/file.xml");
    var e := missing.Format(lookup, (p: string) => None, out);
    assert e.Err?;
  }
}
