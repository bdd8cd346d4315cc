# so2db formatter, modelled in Dafny

`SO2DB::Formatter` turns a Stack Overflow data-dump XML file into delimited text that a bulk
loader can read. The file holds one `<row .../>` element per record, and the values are in the
row's attributes. The formatter:

- walks the XML reader's nodes front to back;
- keeps only the starts of `row` elements (`element_start?`);
- for each row, builds one field per requested column (`format_node`). A present value is
  sanitised (`scrub`: `<` and `>` become entities, line breaks are dropped). An absent value
  gives an empty field;
- joins the fields with the delimiter (vertical tab, character 11, by default) and writes them
  to the caller's writer as one newline-terminated line (`format_from_stream`).

It also names things. `file_name` is the last segment of the path. The table name is that
segment without its extension, and `format` uses it to ask the attribute lookup for the columns.
`value_str` is the table descriptor `badges(date,id,name,user_id)`: the lower-cased table name
and the sorted snake-case columns.

The behaviour is pinned down by `test/test_formatter.rb`; the formatter's own source file is not
part of this model. Modules:

- `Wrappers`: `Option` and `Result`.
- `Strings`: ASCII case, `Join`, `Split` and `Concat`, with the split/join round trip.
- `Sorting`: code-point lexicographic order, insertion sort, and proof that a sorted permutation is unique.
- `Sanitizer`: `scrub`, modelled per character. It is shown equal to four single-character replacement passes run in either order. Decoding its entities on text without `&` gives the text back minus its line breaks.
- `Reader`: the reader's node (type, name, attributes) and attribute lookup.
- `Records`: `element_start?`, `format_node`, the lines a node stream yields, and reading them back with `gets`.
- `Naming`: `file_name`, the table name, snake case and `value_str`.
- `So2db`: the `Formatter` class (path and delimiter fields, `format_from_stream` as a loop writing into a `Sink` class, `format`).
- `FormatterExamples`: each unit test's assertion, stated about the model.

The tests fix two behaviours:

- The lookup key is the base name with its case kept (`"Badges"`, line 31). Only `value_str`
  lower-cases it (line 64).
- `format_from_stream` writes the fields in sorted column order (lines 49-53), whatever the
  order the caller passes them in.

## Model

| member | source | states |
|---|---|---|
| Sanitizer.Scrub | test/test_formatter.rb:115-117 | the sanitised text never contains `<`, `>`, `\n` or `\r`, for every input |
| Sanitizer.ScrubAppend | test/test_formatter.rb:115-117 | scrubbing works piece by piece: `scrub(a + b) == scrub(a) + scrub(b)` |
| Sanitizer.ScrubCleanIdentity | test/test_formatter.rb:115-117 | text free of the four characters comes back unchanged |
| Sanitizer.ScrubIdempotent | test/test_formatter.rb:115-117 | scrubbing twice is scrubbing once |
| Sanitizer.ScrubIsPassChain | test/test_formatter.rb:115-117 | `scrub` is modelled per character; this shows it equals four single-character replacement passes (as four `gsub` calls would be), run entities first or line breaks first |
| Sanitizer.UnescapeScrub | test/test_formatter.rb:115-117 | on text without `&`, decoding the entities of the scrubbed text gives the input minus its line breaks: each `<`/`>` became exactly one `&lt;`/`&gt;` and every other character was kept in order |
| Sanitizer.Replace | test/test_formatter.rb:115-117 | one replacement pass over a single literal character: the replaced character, when the replacement does not contain it, is absent from the result |
| Reader.Attribute | test/test_formatter.rb:92-93 | `node.attribute(name)` is a value exactly when the element carries that attribute, and then it is that attribute's value |
| Records.ElementStart | test/test_formatter.rb:75-88 | `element_start?` holds exactly when the node is an element start and its name is `row`; the three cases of the test are proved in `FormatterExamples.ElementStartExamples` |
| Records.FormatNode | test/test_formatter.rb:90-113 | `format_node` is the row's fields joined by the delimiter; what each field is and that there is one per column is stated by `Records.Fields`, `Records.FieldsAt` and `Records.FormatNodeSplits` |
| Strings.Join | test/test_formatter.rb:53 | the pieces joined with the separator between neighbours; `Strings.SplitJoin` proves that splitting gives the pieces back, and `Strings.JoinExcludes` that no new character appears |
| Records.Fields | test/test_formatter.rb:90-113 | one field per column, and every field is free of `<`, `>` and line breaks |
| Records.FieldsAt | test/test_formatter.rb:90-113 | field i is the scrubbed value of the attribute named by column i, or the empty string when the row lacks it |
| Records.FormatNodeSplits | test/test_formatter.rb:90-113 | for a non-empty column list and a one-character delimiter no field contains, the record splits back into exactly one field per column, in column order, each the scrubbed value or `""` |
| Records.FormatNodeIgnoresOtherAttributes | test/test_formatter.rb:90-101 | rows that agree on the requested columns give the same record: no other attribute is consulted |
| Records.Line | test/test_formatter.rb:53 | one written line is the row's record followed by `\n`; `Records.LineWellFormed` proves it holds exactly one newline, at its end |
| Records.Lines | test/test_formatter.rb:39-57 | the lines a node stream yields, at most one per node; `Records.LinesAreRowStarts` ties them to the row starts one by one |
| Records.LinesAppend | test/test_formatter.rb:39-57 | the lines of two consecutive stretches of the stream are the lines of each stretch, in order |
| Records.RowStartsAppend | test/test_formatter.rb:39-57 | the row starts of two consecutive stretches are those of each stretch, in order |
| Records.RowStartsNone | test/test_formatter.rb:39-57 | a stretch of the stream holding no row-start node has no row starts, so by `Records.LinesAreRowStarts` it yields no line |
| Records.LinesAreRowStarts | test/test_formatter.rb:39-57 | exactly one line per row start, in stream order, each the row's record plus `\n`; every other node yields nothing |
| Records.LineWellFormed | test/test_formatter.rb:53-56 | with a delimiter free of newlines, each line holds exactly one newline, its last character |
| Records.FirstLine | test/test_formatter.rb:54 | `gets` returns a prefix of the text, and a non-empty one when the text is non-empty |
| Records.FirstLineOf | test/test_formatter.rb:54 | `gets` on a well-formed line followed by anything returns that line |
| Records.ReadLinesConcat | test/test_formatter.rb:54 | text made of well-formed lines is read back by repeated `gets` as exactly those lines |
| Records.LinesReadBack | test/test_formatter.rb:47-56 | what the formatter writes is read back by repeated `gets` as exactly its lines |
| Strings.Lower | test/test_formatter.rb:64 | lower-casing keeps the length, maps each character through `ToLower` and leaves no capital |
| Strings.Split | test/test_formatter.rb:100 | cutting at a character gives at least one piece, and no piece contains that character |
| Strings.SplitJoin | test/test_formatter.rb:100 | joining pieces free of a one-character delimiter and splitting at it gives the pieces back |
| Strings.JoinExcludes | test/test_formatter.rb:53 | a character absent from every piece and from the delimiter is absent from the joined text |
| Strings.ConcatSnoc | test/test_formatter.rb:47-54 | writing one more line appends it to everything written so far |
| Sorting.Insert | test/test_formatter.rb:49-53 | inserting into a sorted sequence keeps it sorted and adds exactly that one element |
| Sorting.Sort | test/test_formatter.rb:49-53 | the result is sorted and is a permutation of the input |
| Sorting.SortedUnique | test/test_formatter.rb:49-53 | two sorted permutations of the same strings are equal |
| Sorting.SortIsUnique | test/test_formatter.rb:49-53 | any sorted permutation of the columns is exactly what `Sort` returns, so the caller's order does not matter |
| Sorting.LexLeTotal | test/test_formatter.rb:49-53 | any two column names are comparable |
| Sorting.LexLeTransitive | test/test_formatter.rb:49-53 | the column order is transitive |
| Sorting.LexLeAntisymmetric | test/test_formatter.rb:49-53 | names that sort before each other are equal |
| Naming.StripTrailingSlashes | test/test_formatter.rb:59-61 | the result is a prefix of the path that does not end in a slash, and everything removed is a slash |
| Naming.LastSegment | test/test_formatter.rb:59-61 | the result is the longest slash-free suffix of the path: it holds no slash, and the character before it, if any, is a slash |
| Naming.FileName | test/test_formatter.rb:59-61 | `file_name` is modelled as the POSIX basename: the result holds no slash unless it is `/`, which it is exactly when the path is non-empty and made only of slashes; a non-empty path never gives `""` |
| Naming.FileNameTrailingSlash | test/test_formatter.rb:59-61 | a slash at the end of a non-empty path does not change its file name |
| Naming.FileNameOfPlain | test/test_formatter.rb:59-61 | a name without a directory part is its own file name |
| Naming.FileNameAfterSlash | test/test_formatter.rb:59-61 | the file name of `dir/name` is `name` |
| Naming.LastDot | test/test_formatter.rb:31 | the index of a dot with no dot after it, or -1 exactly when there is no dot |
| Naming.BaseName | test/test_formatter.rb:31 | the table name is a prefix of the file name: either the whole file name, when no dot follows its first character, or the part before the last dot, which is then non-empty and followed by no other dot; it holds no slash unless it is `/` |
| Naming.BaseNameOfPlain | test/test_formatter.rb:31 | a file name `stem.ext` without a directory part has the table name `stem` |
| Naming.BaseNameWithoutExtension | test/test_formatter.rb:31 | `dir/name` with no dot after the first character of `name` has the table name `name` |
| Naming.BaseNameOf | test/test_formatter.rb:31 | the file name of `dir/stem.ext` is `stem.ext`, and its table name is `stem`, case kept |
| Naming.SnakeFrom | test/test_formatter.rb:63-65 | snake case leaves no capital letter and never shortens the name |
| Naming.SnakeCase | test/test_formatter.rb:63-65 | snake case of a column name; its properties are those of `Naming.SnakeFrom` and `Naming.SnakeWords` (`UserId` gives `user_id`) |
| Naming.SnakeNoCapitals | test/test_formatter.rb:63-65 | a stretch without capitals is only lower-cased, and no underscore goes in |
| Naming.SnakeWord | test/test_formatter.rb:63-65 | a capitalised word becomes its lower-case form, with `_` before it unless it comes first |
| Naming.SnakeWords | test/test_formatter.rb:63-65 | a name made of capitalised words (`UserId`) becomes the lower-case words joined by `_` (`user_id`) |
| Naming.ValueStr | test/test_formatter.rb:63-65 | `value_str` is the lower-cased table name and the sorted snake-case columns joined by commas in parentheses; `Naming.ValueStrColumns` and `Naming.ValueStrNoCapitals` state what it holds |
| Naming.ValueStrNoCapitals | test/test_formatter.rb:63-65 | the descriptor holds no capital letter, whatever the case of the file name and the columns |
| Naming.ValueStrColumns | test/test_formatter.rb:63-65 | the descriptor lists the snake-case columns in their one sorted arrangement, inside parentheses after the lower-cased table name |
| So2db.Sink.constructor | test/test_formatter.rb:47 | a fresh writer holds nothing |
| So2db.Sink.Write | test/test_formatter.rb:47-54 | a write appends its text to what was written before |
| So2db.Formatter.constructor | test/test_formatter.rb:18-25 | the given path and delimiter are stored unchanged |
| So2db.Formatter.WithPath | test/test_formatter.rb:8-10 | the given path is stored, and the delimiter is character 11 |
| So2db.Formatter.Default | test/test_formatter.rb:12-16 | the path is `''` and the delimiter is character 11 |
| So2db.Formatter.FileName | test/test_formatter.rb:59-61 | `file_name` of the configured path, which holds no slash unless it is `/` |
| So2db.Formatter.ValueStr | test/test_formatter.rb:63-65 | `value_str` of the configured path with the looked-up columns; it holds no capital letter |
| So2db.Formatter.FormatNode | test/test_formatter.rb:90-113 | `format_node` with the formatter's own delimiter |
| So2db.Formatter.FormatFromStream | test/test_formatter.rb:39-57 | the writer ends up holding what it held before, followed by one line per row start in stream order over the sorted columns; the count returned is the number of row starts |
| So2db.Formatter.Format | test/test_formatter.rb:27-37 | when the path opens, the columns come from the lookup keyed on the table name and the stream's result is passed through; when it cannot be opened, the result is an error and nothing is written |
| FormatterExamples.ScrubExample | test/test_formatter.rb:115-117 | `scrub("<asdf\nfdsa\r>")` is `"&lt;asdffdsa&gt;"` |
| FormatterExamples.ElementStartExamples | test/test_formatter.rb:75-88 | true for an element start named `row`; false for the end of `row` and for an element start named `badges` |
| FormatterExamples.FormatNodeExample | test/test_formatter.rb:90-101 | columns `Id, Name` over `Id=1, Name=Anony Mous` give `"1\vAnony Mous"` |
| FormatterExamples.FormatNodeMissingExample | test/test_formatter.rb:103-113 | with `Name` absent, the record is `"1\v"`: the field is empty and the count of fields is kept |
| FormatterExamples.SortedColumnsExample | test/test_formatter.rb:49-53 | the columns `Id, UserId, Name, Date, Missing` sort to `Date, Id, Missing, Name, UserId` |
| FormatterExamples.StreamDocumentRowStarts | test/test_formatter.rb:40-45 | in the test document only the `row` element is a row start; `data` and `fake-row` are not |
| FormatterExamples.FormatFromStreamExample | test/test_formatter.rb:39-57 | for any clean row values, the test document yields the single line `date, id, "", name, user id` joined by character 11, plus `\n` |
| FormatterExamples.TestStreamLines | test/test_formatter.rb:39-57 | the test's own row yields exactly the expected line |
| FormatterExamples.StreamWritten | test/test_formatter.rb:47-56 | after the stream test, the writer holds one line, and one `gets` returns the expected record |
| FormatterExamples.ReadBackSingleLine | test/test_formatter.rb:54-56 | when a stream yields one line, one `gets` returns exactly that line |
| FormatterExamples.TableNameShapes | test/test_formatter.rb:31 | `Badges.xml` and `/tmp/Badges` both have the table name `Badges` |
| FormatterExamples.NamingExamples | test/test_formatter.rb:59-60 | `/tmp/Badges.xml` has file name `Badges.xml` and table name `Badges` |
| FormatterExamples.SnakeUserId | test/test_formatter.rb:63-65 | `UserId` becomes `user_id` |
| FormatterExamples.SnakeCaseExamples | test/test_formatter.rb:63-65 | the columns `Id, UserId, Name, Date` become `id, user_id, name, date` |
| FormatterExamples.ValueStrExample | test/test_formatter.rb:63-65 | `value_str` of `/tmp/Badges.xml` with the Badges columns is `badges(date,id,name,user_id)` |

## Left out

- The XML reader is left out, and so is XML parsing itself. The input is the sequence of nodes the reader stops at. A node has a type, a name and an attribute map. Malformed XML is not modelled.
- Opening the file is not modelled as I/O. `format` takes the opener as a function from path to an optional node sequence, and a path that cannot be opened gives an error.
- The pipe is not modelled. The writer is a `Sink` object whose text grows with each write, and `gets` is a function on that text.
- The attribute lookup is an external collaborator with data the model cannot see. `format` and `value_str` take it as a function parameter.
- The test's mocking and its `instance_variable_get` calls are not modelled. "`scrub` is called once for each present value and never for a missing one" is stated as what each field equals (`Records.FieldsAt`).
- Lower-casing and the capital/lower-case/digit tests are ASCII only. Ruby's Unicode case mapping is not modelled.
- Naming.SnakeWords: the snake-case round trip is proved only for names made of capitalised words (`UserId`). The model's rule for runs of capitals (`URLValue` becomes `url_value`) is one conventional choice, which the tests do not pin down.
- Naming.FileName: `file_name` is modelled as the POSIX basename with `/` as the only separator. Other platforms' separators are not modelled.
- So2db.Formatter.FormatFromStream: the tests fix only that `format` passes on what `format_from_stream` returns (line 33 stubs it as `"x"`), not what that value is. The model returns the number of lines written, and `format` passes it through unchanged.
- Sorting.Sort: compares strings by code point. This matches Ruby's byte order for the ASCII column names involved. Locale-aware ordering is not modelled.
