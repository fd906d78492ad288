/** The CSV preview plugin: a line parser that toggles on quotes, and the table built from it. */
module CsvPreview {
  import opened Options

  // ---- Trimming, as JavaScript does it ------------------------------------------

  predicate IsBlank(c: char) {
    || '\t' <= c <= '\r' || c == ' ' || c == '\U{00A0}' || c == '\U{1680}' || '\U{2000}' <= c <= '\U{200A}'
    || c == '\U{2028}' || c == '\U{2029}' || c == '\U{202F}' || c == '\U{205F}' || c == '\U{3000}' || c == '\U{FEFF}'
  }

  function TrimStart(s: string): string {
    if s != "" && IsBlank(s[0]) then TrimStart(s[1..]) else s
  }

  function TrimEnd(s: string): string {
    if s != "" && IsBlank(s[|s| - 1]) then TrimEnd(s[..|s| - 1]) else s
  }

  function Trim(s: string): string {
    TrimEnd(TrimStart(s))
  }

  predicate NoBlankEnds(s: string) {
    s == "" || (!IsBlank(s[0]) && !IsBlank(s[|s| - 1]))
  }

  lemma TrimStays(s: string)
    requires NoBlankEnds(s)
    ensures Trim(s) == s
  {
  }

  // ---- One line --------------------------------------------------------------------

  /** The fields of the rest of a line, when `current` has been read of its first one. */
  function ParseFrom(line: string, current: string, inQuotes: bool): seq<string> {
    if line == "" then [Trim(current)]
    else if line[0] == '"' then ParseFrom(line[1..], current, !inQuotes)
    else if line[0] == ',' && !inQuotes then [Trim(current)] + ParseFrom(line[1..], "", inQuotes)
    else ParseFrom(line[1..], current + [line[0]], inQuotes)
  }

  method ParseCSVLine(line: string) returns (result: seq<string>)
    ensures result == ParseFrom(line, "", false)
  {
    result := [];
    var current, inQuotes := "", false;
    var i := 0;
    while i < |line|
      invariant 0 <= i <= |line|
      invariant ParseFrom(line, "", false) == result + ParseFrom(line[i..], current, inQuotes)
    {
      var c := line[i];
      assert line[i..][1..] == line[i + 1..];
      if c == '"' {
        inQuotes := !inQuotes;
      } else if c == ',' && !inQuotes {
        result := result + [Trim(current)];
        current := "";
      } else {
        current := current + [c];
      }
      i := i + 1;
    }
    result := result + [Trim(current)];
  }

  /** Commas outside quotes. */
  function OuterCommas(line: string, inQuotes: bool): nat {
    if line == "" then 0
    else if line[0] == '"' then OuterCommas(line[1..], !inQuotes)
    else (if line[0] == ',' && !inQuotes then 1 else 0) + OuterCommas(line[1..], inQuotes)
  }

  /** On every line, well formed or not, there is one field more than there are commas outside quotes. */
  lemma {:induction false} FieldCount(line: string, current: string, inQuotes: bool)
    ensures |ParseFrom(line, current, inQuotes)| == 1 + OuterCommas(line, inQuotes)
  {
    if line != "" {
      if line[0] == '"' {
        FieldCount(line[1..], current, !inQuotes);
      } else if line[0] == ',' && !inQuotes {
        FieldCount(line[1..], "", inQuotes);
      } else {
        FieldCount(line[1..], current + [line[0]], inQuotes);
      }
    }
  }

  // ---- What a line says ---------------------------------------------------------------

  /** The stretches of a line between its commas outside quotes. */
  function Pieces(line: string, inQuotes: bool): (pieces: seq<string>)
    ensures |pieces| >= 1
  {
    if line == "" then [""]
    else if line[0] == ',' && !inQuotes then [""] + Pieces(line[1..], inQuotes)
    else
      var rest := Pieces(line[1..], if line[0] == '"' then !inQuotes else inQuotes);
      [[line[0]] + rest[0]] + rest[1..]
  }

  function JoinPieces(pieces: seq<string>): string {
    if |pieces| == 0 then "" else if |pieces| == 1 then pieces[0] else pieces[0] + "," + JoinPieces(pieces[1..])
  }

  function WithoutQuotes(s: string): string {
    if s == "" then "" else (if s[0] == '"' then "" else [s[0]]) + WithoutQuotes(s[1..])
  }

  lemma OneMoreChar(c: char, rest: string, inQuotes: bool)
    ensures Pieces([c] + rest, inQuotes)
            == if c == ',' && !inQuotes then [""] + Pieces(rest, inQuotes)
               else var pieces := Pieces(rest, Toggled(c, inQuotes)); [[c] + pieces[0]] + pieces[1..]
    ensures WithoutQuotes([c] + rest) == (if c == '"' then "" else [c]) + WithoutQuotes(rest)
    ensures OuterCommas([c] + rest, inQuotes) == (if c == ',' && !inQuotes then 1 else 0) + OuterCommas(rest, Toggled(c, inQuotes))
  {
    assert ([c] + rest)[1..] == rest;
  }

  function Toggled(c: char, inQuotes: bool): bool {
    if c == '"' then !inQuotes else inQuotes
  }

  lemma JoinFirst(pieces: seq<string>, c: char)
    requires |pieces| >= 1
    ensures JoinPieces([""] + pieces) == "," + JoinPieces(pieces)
    ensures JoinPieces([[c] + pieces[0]] + pieces[1..]) == [c] + JoinPieces(pieces)
  {
    hide JoinPieces;
    assert ([""] + pieces)[1..] == pieces;
    JoinStep([""] + pieces);
    JoinStep(pieces);
    JoinStep([[c] + pieces[0]] + pieces[1..]);
    assert ([[c] + pieces[0]] + pieces[1..])[1..] == pieces[1..];
    Regroup(c, pieces[0], JoinPieces(pieces[1..]));
    EmptyBefore(JoinPieces(pieces));
  }

  lemma Regroup(c: char, first: string, rest: string)
    ensures [c] + first + "," + rest == [c] + (first + "," + rest)
  {
  }

  lemma EmptyBefore(rest: string)
    ensures "" + "," + rest == "," + rest
  {
  }

  lemma JoinStep(pieces: seq<string>)
    requires |pieces| >= 1
    ensures JoinPieces(pieces) == if |pieces| == 1 then pieces[0] else pieces[0] + "," + JoinPieces(pieces[1..])
  {
  }

  /** They make up the line. */
  lemma {:induction false} PiecesMakeLine(line: string, inQuotes: bool)
    ensures JoinPieces(Pieces(line, inQuotes)) == line
  {
    if line != "" {
      hide Pieces, JoinPieces, OuterCommas, ParseFrom, WithoutQuotes;
      var c, rest := line[0], line[1..];
      assert line == [c] + rest;
      OneMoreChar(c, rest, inQuotes);
      PiecesMakeLine(rest, Toggled(c, inQuotes));
      JoinFirst(Pieces(rest, Toggled(c, inQuotes)), c);
    }
  }

  /** No comma is left in them outside quotes. */
  lemma {:induction false} PiecesAreWhole(line: string, inQuotes: bool)
    ensures OuterCommas(Pieces(line, inQuotes)[0], inQuotes) == 0
    ensures forall k :: 1 <= k < |Pieces(line, inQuotes)| ==> OuterCommas(Pieces(line, inQuotes)[k], false) == 0
  {
    if line != "" {
      hide Pieces, OuterCommas, ParseFrom, WithoutQuotes;
      var c, rest := line[0], line[1..];
      assert line == [c] + rest;
      OneMoreChar(c, rest, inQuotes);
      PiecesAreWhole(rest, Toggled(c, inQuotes));
      OneMoreChar(c, Pieces(rest, Toggled(c, inQuotes))[0], inQuotes);
      NoCommas();
    }
  }

  lemma NoCommas()
    ensures OuterCommas("", false) == 0 && WithoutQuotes("") == ""
  {
  }

  /** Fields as the pieces of a line show them, the first after what was read before. */
  ghost predicate AreRead(fields: seq<string>, pieces: seq<string>, current: string) {
    && |fields| == |pieces| >= 1 && fields[0] == Trim(current + WithoutQuotes(pieces[0]))
    && forall k :: 1 <= k < |fields| ==> fields[k] == Trim(WithoutQuotes(pieces[k]))
  }

  lemma ReadComma(fields: seq<string>, pieces: seq<string>, current: string)
    requires AreRead(fields, pieces, "")
    ensures AreRead([Trim(current)] + fields, [""] + pieces, current)
  {
    hide Trim, WithoutQuotes;
    NoCommas();
    assert current + "" == current;
    assert "" + WithoutQuotes(pieces[0]) == WithoutQuotes(pieces[0]);
  }

  lemma ReadChar(c: char, fields: seq<string>, pieces: seq<string>, current: string)
    requires AreRead(fields, pieces, if c == '"' then current else current + [c])
    ensures AreRead(fields, [[c] + pieces[0]] + pieces[1..], current)
  {
    hide Trim, WithoutQuotes, OuterCommas, Pieces;
    var first := pieces[0];
    OneMoreChar(c, first, false);
    assert current + [c] + WithoutQuotes(first) == current + ([c] + WithoutQuotes(first));
    assert "" + WithoutQuotes(first) == WithoutQuotes(first);
  }

  /** Every line, well formed or not, is read as its pieces, without their quotes and the blanks around them. */
  lemma {:induction false} ParseReadsPieces(line: string, current: string, inQuotes: bool)
    ensures AreRead(ParseFrom(line, current, inQuotes), Pieces(line, inQuotes), current)
  {
    hide Trim, AreRead;
    if line == "" {
      NothingRead(current);
    } else if line[0] == ',' && !inQuotes {
      ParseReadsPieces(line[1..], "", inQuotes);
      ReadComma(ParseFrom(line[1..], "", inQuotes), Pieces(line[1..], inQuotes), current);
    } else if line[0] == '"' {
      ParseReadsPieces(line[1..], current, !inQuotes);
      ReadChar(line[0], ParseFrom(line[1..], current, !inQuotes), Pieces(line[1..], !inQuotes), current);
    } else {
      ParseReadsPieces(line[1..], current + [line[0]], inQuotes);
      ReadChar(line[0], ParseFrom(line[1..], current + [line[0]], inQuotes), Pieces(line[1..], inQuotes), current);
    }
  }

  lemma NothingRead(current: string)
    ensures AreRead([Trim(current)], [""], current)
  {
    hide Trim;
    NoCommas();
    assert current + "" == current;
  }

  // ---- Writing and reading back --------------------------------------------------------

  /** A field to be written, in quotes or bare. */
  datatype Field = Field(text: string, quoted: bool)

  /** What the parser can read back: no quote in the text, no blanks around it, and no comma unless it is quoted. */
  predicate Writable(f: Field) {
    '"' !in f.text && NoBlankEnds(f.text) && (!f.quoted ==> ',' !in f.text)
  }

  function Written(f: Field): string {
    if f.quoted then "\"" + f.text + "\"" else f.text
  }

  function WriteLine(fields: seq<Field>): string {
    if fields == [] then ""
    else if |fields| == 1 then Written(fields[0])
    else Written(fields[0]) + "," + WriteLine(fields[1..])
  }

  function Texts(fields: seq<Field>): seq<string> {
    if fields == [] then [] else [fields[0].text] + Texts(fields[1..])
  }

  /** Inside quotes everything but a quote is read as it stands; outside, everything but a quote and a comma. */
  lemma {:induction false} ReadText(text: string, rest: string, current: string, inQuotes: bool)
    requires '"' !in text && (!inQuotes ==> ',' !in text)
    ensures ParseFrom(text + rest, current, inQuotes) == ParseFrom(rest, current + text, inQuotes)
  {
    if text == "" {
      assert text + rest == rest && current + text == current;
    } else {
      assert text[0] in text;
      assert (text + rest)[1..] == text[1..] + rest;
      ReadText(text[1..], rest, current + [text[0]], inQuotes);
      assert current + [text[0]] + text[1..] == current + text;
    }
  }

  lemma ReadField(f: Field, rest: string)
    requires Writable(f)
    ensures ParseFrom(Written(f) + rest, "", false) == ParseFrom(rest, f.text, false)
  {
    if f.quoted {
      var tail := f.text + "\"" + rest;
      assert Written(f) + rest == "\"" + tail;
      assert ("\"" + tail)[1..] == tail;
      ReadText(f.text, "\"" + rest, "", true);
      assert tail == f.text + ("\"" + rest);
      assert ("\"" + rest)[1..] == rest;
      assert "" + f.text == f.text;
    } else {
      ReadText(f.text, rest, "", false);
      assert "" + f.text == f.text;
    }
  }

  /** Reading inverts writing, for any mixture of quoted and bare fields the format can carry. */
  lemma {:induction false} ParseInvertsWrite(fields: seq<Field>)
    requires |fields| >= 1 && forall i :: 0 <= i < |fields| ==> Writable(fields[i])
    ensures ParseFrom(WriteLine(fields), "", false) == Texts(fields)
  {
    hide ParseFrom, Written, Trim, NoBlankEnds;
    FieldEnds(fields[0].text, "");
    if |fields| == 1 {
      ReadField(fields[0], "");
      assert Written(fields[0]) + "" == Written(fields[0]);
    } else {
      var rest := WriteLine(fields[1..]);
      FieldEnds(fields[0].text, rest);
      ReadField(fields[0], "," + rest);
      assert WriteLine(fields) == Written(fields[0]) + ("," + rest);
      ParseInvertsWrite(fields[1..]);
    }
  }

  /** A field ends with its line, or at a comma. */
  lemma FieldEnds(text: string, rest: string)
    requires NoBlankEnds(text)
    ensures ParseFrom("", text, false) == [text] && ParseFrom("," + rest, text, false) == [text] + ParseFrom(rest, "", false)
  {
    TrimStays(text);
    assert ("," + rest)[1..] == rest;
  }

  lemma {:induction false} TrimEndClean(s: string)
    ensures TrimEnd(s) == "" || !IsBlank(TrimEnd(s)[|TrimEnd(s)| - 1])
    ensures TrimEnd(s) <= s
  {
    if s != "" && IsBlank(s[|s| - 1]) {
      TrimEndClean(s[..|s| - 1]);
    }
  }

  lemma {:induction false} TrimStartClean(s: string)
    ensures TrimStart(s) == "" || !IsBlank(TrimStart(s)[0])
    ensures '"' !in s ==> '"' !in TrimStart(s)
  {
    if s != "" && IsBlank(s[0]) {
      TrimStartClean(s[1..]);
    }
  }

  lemma TrimClean(s: string)
    ensures NoBlankEnds(Trim(s)) && ('"' !in s ==> '"' !in Trim(s))
  {
    TrimStartClean(s);
    TrimEndClean(TrimStart(s));
  }

  /** Whatever the line, no field read from it holds a quote or has blanks around it. */
  lemma {:induction false} FieldsAreClean(line: string, current: string, inQuotes: bool)
    requires '"' !in current
    ensures forall k :: 0 <= k < |ParseFrom(line, current, inQuotes)| ==>
              '"' !in ParseFrom(line, current, inQuotes)[k] && NoBlankEnds(ParseFrom(line, current, inQuotes)[k])
  {
    TrimClean(current);
    if line != "" {
      if line[0] == '"' {
        FieldsAreClean(line[1..], current, !inQuotes);
      } else if line[0] == ',' && !inQuotes {
        FieldsAreClean(line[1..], "", inQuotes);
      } else {
        FieldsAreClean(line[1..], current + [line[0]], inQuotes);
      }
    }
  }

  lemma {:induction false} BareCommas(text: string)
    requires '"' !in text
    ensures OuterCommas(text, false) >= 1 <==> ',' in text
  {
    if text != "" {
      BareCommas(text[1..]);
      assert text == [text[0]] + text[1..];
    }
  }

  lemma {:induction false} QuotedCommas(text: string, rest: string, inQuotes: bool)
    requires '"' !in text
    ensures OuterCommas(text + rest, inQuotes) == (if inQuotes then 0 else OuterCommas(text, false)) + OuterCommas(rest, inQuotes)
  {
    if text == "" {
      assert text + rest == rest;
    } else {
      assert text[0] in text && (text + rest)[1..] == text[1..] + rest;
      QuotedCommas(text[1..], rest, inQuotes);
    }
  }

  /** Commas of the texts that are written bare. */
  function BareCommaCount(fields: seq<Field>): nat {
    if fields == [] then 0
    else (if fields[0].quoted then 0 else OuterCommas(fields[0].text, false)) + BareCommaCount(fields[1..])
  }

  lemma WrittenCommas(f: Field, rest: string)
    requires '"' !in f.text
    ensures OuterCommas(Written(f) + rest, false) == (if f.quoted then 0 else OuterCommas(f.text, false)) + OuterCommas(rest, false)
  {
    if f.quoted {
      var tail := f.text + ("\"" + rest);
      assert Written(f) + rest == "\"" + tail;
      assert ("\"" + tail)[1..] == tail && ("\"" + rest)[1..] == rest;
      QuotedCommas(f.text, "\"" + rest, true);
    } else {
      QuotedCommas(f.text, rest, false);
    }
  }

  /** Outside quotes a written line has the commas between its fields and those of its bare texts. */
  lemma {:induction false} LineCommas(fields: seq<Field>)
    requires |fields| >= 1 && forall i :: 0 <= i < |fields| ==> '"' !in fields[i].text
    ensures OuterCommas(WriteLine(fields), false) == |fields| - 1 + BareCommaCount(fields)
  {
    if |fields| == 1 {
      WrittenCommas(fields[0], "");
      assert Written(fields[0]) + "" == Written(fields[0]);
    } else {
      var rest := "," + WriteLine(fields[1..]);
      WrittenCommas(fields[0], rest);
      assert WriteLine(fields) == Written(fields[0]) + rest;
      assert rest[1..] == WriteLine(fields[1..]);
      LineCommas(fields[1..]);
    }
  }

  lemma {:induction false} TextAt(fields: seq<Field>, k: nat)
    requires k < |fields|
    ensures |Texts(fields)| == |fields| && Texts(fields)[k] == fields[k].text
  {
    if |fields| > 1 {
      TextAt(fields[1..], if k > 0 then k - 1 else 0);
    }
  }

  lemma {:induction false} NoBareCommas(fields: seq<Field>, k: nat)
    requires k < |fields| && '"' !in fields[k].text && BareCommaCount(fields) == 0
    ensures !fields[k].quoted ==> ',' !in fields[k].text
  {
    if k == 0 {
      BareCommas(fields[0].text);
    } else {
      NoBareCommas(fields[1..], k - 1);
    }
  }

  /** A line comes back if and only if every one of its fields is writable: the doubled quotes that section 2 of RFC 4180
      prescribes for a quote inside a field are among what is lost. */
  lemma ReadsBackIffWritable(fields: seq<Field>)
    requires |fields| >= 1
    ensures ParseFrom(WriteLine(fields), "", false) == Texts(fields) <==> forall i :: 0 <= i < |fields| ==> Writable(fields[i])
  {
    hide WriteLine, ParseFrom, Texts, OuterCommas, BareCommaCount, NoBlankEnds;
    if forall i :: 0 <= i < |fields| ==> Writable(fields[i]) {
      ParseInvertsWrite(fields);
    }
    if ParseFrom(WriteLine(fields), "", false) == Texts(fields) {
      FieldsAreClean(WriteLine(fields), "", false);
      TextAt(fields, 0);
      forall i | 0 <= i < |fields| ensures '"' !in fields[i].text && NoBlankEnds(fields[i].text) {
        TextAt(fields, i);
      }
      LineCommas(fields);
      FieldCount(WriteLine(fields), "", false);
      forall i | 0 <= i < |fields| ensures Writable(fields[i]) {
        NoBareCommas(fields, i);
      }
    }
  }

  // ---- The table -----------------------------------------------------------------------

  function SplitLines(text: string): (lines: seq<string>)
    ensures |lines| >= 1
  {
    if text == "" then [""]
    else
      var rest := SplitLines(text[1..]);
      if text[0] == '\n' then [""] + rest else [[text[0]] + rest[0]] + rest[1..]
  }

  /** The lines, put together again with line ends between them. */
  function JoinLines(lines: seq<string>): string {
    if |lines| == 0 then "" else if |lines| == 1 then lines[0] else lines[0] + "\n" + JoinLines(lines[1..])
  }

  /** Lines end exactly at the line ends of the text: none holds one, and together they are the text. */
  lemma {:induction false} SplitLinesIsExact(text: string)
    ensures JoinLines(SplitLines(text)) == text
    ensures forall k :: 0 <= k < |SplitLines(text)| ==> '\n' !in SplitLines(text)[k]
  {
    if text != "" {
      var rest, lines := SplitLines(text[1..]), SplitLines(text);
      SplitLinesIsExact(text[1..]);
      assert text == [text[0]] + text[1..];
      if text[0] == '\n' {
        assert lines[1..] == rest;
      } else {
        assert lines[1..] == rest[1..];
        assert lines[0] == [text[0]] + rest[0];
      }
    }
  }

  type Record = map<string, string>

  /** Assigning a string to this property of a JavaScript object does nothing. */
  const PROTO := "__proto__"

  /** A record with one more column. */
  function WithColumn(row: Record, column: string, value: string): Record {
    if column == PROTO then row else row[column := value]
  }

  /** One record per line after the first; a missing value is empty, and of two columns with one name the later wins. */
  function RecordOf(columns: seq<string>, values: seq<string>, k: nat): Record
    requires k <= |columns|
  {
    if k == 0 then map[]
    else WithColumn(RecordOf(columns, values, k - 1), columns[k - 1], if k - 1 < |values| then values[k - 1] else "")
  }

  method ParseRecord(columns: seq<string>, line: string) returns (row: Record)
    ensures row == RecordOf(columns, ParseFrom(line, "", false), |columns|)
  {
    var values := ParseCSVLine(line);
    row := map[];
    var index := 0;
    while index < |columns|
      invariant 0 <= index <= |columns| && row == RecordOf(columns, values, index)
    {
      row := WithColumn(row, columns[index], if index < |values| then values[index] else "");
      index := index + 1;
    }
  }

  /** The records of the lines after the header. */
  ghost predicate AreRecords(lines: seq<string>, columns: seq<string>, rows: seq<Record>) {
    && |rows| == |lines| - 1
    && forall k :: 0 <= k < |rows| ==> rows[k] == RecordOf(columns, ParseFrom(lines[k + 1], "", false), |columns|)
  }

  method ParseRows(columns: seq<string>, lines: seq<string>) returns (rows: seq<Record>)
    requires |lines| >= 1
    ensures AreRecords(lines, columns, rows)
  {
    rows := [];
    var k := 1;
    while k < |lines|
      invariant 1 <= k <= |lines| && |rows| == k - 1
      invariant forall j :: 0 <= j < |rows| ==> rows[j] == RecordOf(columns, ParseFrom(lines[j + 1], "", false), |columns|)
    {
      var row := ParseRecord(columns, lines[k]);
      rows := rows + [row];
      k := k + 1;
    }
  }

  const EMPTY_FILE := "CSV 文件为空"

  /** The component that shows a file. */
  class CsvTable {
    var columns: seq<string>
    var parsedData: seq<Record>
    var error: Option<string>
    var currentPage: int

    constructor ()
      ensures columns == [] && parsedData == [] && error == None && currentPage == 1
    {
      columns, parsedData, error, currentPage := [], [], None, 1;
    }

    /** A blank file reports an error and leaves the table of the file before it in place. */
    method ParseCSV(text: string)
      modifies this
      ensures Trim(text) == "" ==>
                error == Some(EMPTY_FILE) && columns == old(columns) && parsedData == old(parsedData) && currentPage == old(currentPage)
      ensures Trim(text) != "" ==>
                && error == None && currentPage == 1
                && columns == ParseFrom(SplitLines(Trim(text))[0], "", false)
                && AreRecords(SplitLines(Trim(text)), columns, parsedData)
    {
      if Trim(text) == "" {
        error := Some(EMPTY_FILE);
        return;
      }
      var lines := SplitLines(Trim(text));
      columns := ParseCSVLine(lines[0]);
      parsedData := ParseRows(columns, lines);
      error := None;
      currentPage := 1;
    }
  }

  /** With distinct column names a record has exactly the columns, each with its own value, but for one column name that
      JavaScript does not let it have. */
  lemma {:induction false} RecordIsExact(columns: seq<string>, values: seq<string>, k: nat)
    requires k <= |columns| && forall i, j :: 0 <= i < j < |columns| ==> columns[i] != columns[j]
    ensures forall i :: 0 <= i < k && columns[i] != PROTO ==>
              columns[i] in RecordOf(columns, values, k) && RecordOf(columns, values, k)[columns[i]] == if i < |values| then values[i] else ""
    ensures forall c :: c in RecordOf(columns, values, k) ==> c in columns[..k] && c != PROTO
  {
    hide PROTO, RecordOf;
    forall i | 0 <= i < k && columns[i] != PROTO
      ensures columns[i] in RecordOf(columns, values, k)
      ensures RecordOf(columns, values, k)[columns[i]] == if i < |values| then values[i] else ""
    {
      RecordAt(columns, values, k, i);
    }
    forall c | c in RecordOf(columns, values, k) ensures c in columns[..k] && c != PROTO {
      RecordOnly(columns, values, k, c);
    }
  }

  lemma {:induction false} RecordAt(columns: seq<string>, values: seq<string>, k: nat, i: nat)
    requires i < k <= |columns| && columns[i] != PROTO
    requires forall j :: i < j < k ==> columns[i] != columns[j]
    ensures columns[i] in RecordOf(columns, values, k)
    ensures RecordOf(columns, values, k)[columns[i]] == if i < |values| then values[i] else ""
  {
    hide PROTO;
    if i < k - 1 {
      RecordAt(columns, values, k - 1, i);
    }
  }

  lemma {:induction false} RecordOnly(columns: seq<string>, values: seq<string>, k: nat, c: string)
    requires k <= |columns| && c in RecordOf(columns, values, k)
    ensures c in columns[..k] && c != PROTO
  {
    hide PROTO;
    assert k > 0;
    assert columns[..k] == columns[..k - 1] + [columns[k - 1]];
    if c in RecordOf(columns, values, k - 1) {
      RecordOnly(columns, values, k - 1, c);
    }
  }
}
