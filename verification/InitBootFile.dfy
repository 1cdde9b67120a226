/** The key-value file that hands first-boot settings over: written line by line, read back into a table. */
module InitBootFile {
  import opened Common

  const NEWLINE := '\n'

  // ---------- reading ----------

  /** The lines `getline` yields: a final newline ends the last line, and text after it is a line of its own. */
  function Lines(text: string): seq<string>
    decreases |text|
  {
    if text == [] then []
    else
      var end := IndexOf(text, NEWLINE);
      [text[..end]] + if end < |text| then Lines(text[end + 1..]) else []
  }

  /** What one line does to the table: blank lines, comments and lines without `=` do nothing. */
  function Entered(table: map<string, string>, line: string): map<string, string> {
    if line == [] || line[0] == '#' || '=' !in line then table
    else table[line[..IndexOf(line, '=')] := line[IndexOf(line, '=') + 1..]]
  }

  function Table(lines: seq<string>): map<string, string> {
    if lines == [] then map[] else Entered(Table(lines[..|lines| - 1]), lines[|lines| - 1])
  }

  /** The last value written to a key, or nothing. */
  function LastWritten(writes: seq<(string, string)>, key: string): string {
    if writes == [] then ""
    else if writes[|writes| - 1].0 == key then writes[|writes| - 1].1
    else LastWritten(writes[..|writes| - 1], key)
  }

  /** A file is open either for writing or for reading. */
  datatype Mode = Writing | Reading

  function LineOf(key: string, value: string): string {
    key + "=" + value + [NEWLINE]
  }

  function Text(writes: seq<(string, string)>): string {
    if writes == [] then []
    else Text(writes[..|writes| - 1]) + LineOf(writes[|writes| - 1].0, writes[|writes| - 1].1)
  }

  class InitBootFile {
    const mode: Mode
    /** The file's contents. */
    var text: string
    var readData: map<string, string>

    constructor Writer()
      ensures mode == Writing && text == ""
    {
      mode, text, readData := Writing, "", map[];
    }

    constructor Reader(text: string)
      ensures mode == Reading && this.text == text && readData == Table(Lines(text))
    {
      mode, this.text, readData := Reading, text, map[];
      new;
      ReadFull();
    }

    method ReadFull()
      requires mode == Reading
      modifies this`readData
      ensures readData == Table(Lines(text))
    {
      readData := map[];
      var lines := Lines(text);
      var i := 0;
      while i < |lines|
        invariant 0 <= i <= |lines| && readData == Table(lines[..i])
      {
        var line := lines[i];
        assert lines[..i + 1][..i] == lines[..i];
        i := i + 1;
        if line == "" || line[0] == '#' { continue; }
        var pos := IndexOf(line, '=');
        if pos == |line| { continue; }
        readData := readData[line[..pos] := line[pos + 1..]];
      }
      assert lines[..|lines|] == lines;
    }

    method Read(key: string) returns (r: Result<string>)
      ensures r == if mode == Writing then Error("file is open for writing")
                   else Ok(if key in readData then readData[key] else "")
    {
      if mode == Writing { return Error("file is open for writing"); }
      return Ok(if key in readData then readData[key] else "");
    }

    method Write(key: string, value: string) returns (r: Result<()>)
      modifies this`text
      ensures r.Ok? <==> mode == Writing && NEWLINE !in value
      ensures text == if r.Ok? then old(text) + LineOf(key, value) else old(text)
    {
      if mode == Reading { return Error("file is open for reading"); }
      if NEWLINE in value { return Error("value cannot contain newline"); }
      text := text + LineOf(key, value);
      r := Ok(());
    }
  }

  // ---------- the round trip ----------

  /** A key that can be read back: not a comment, without the separator and on one line. */
  predicate PlainKey(key: string) {
    (key == "" || key[0] != '#') && '=' !in key && NEWLINE !in key
  }

  predicate Writable(writes: seq<(string, string)>) {
    forall i | 0 <= i < |writes| :: PlainKey(writes[i].0) && NEWLINE !in writes[i].1
  }

  lemma {:induction false} IndexAfter(before: string, c: char, rest: string)
    requires c !in before
    ensures IndexOf(before + [c] + rest, c) == |before|
    decreases |before|
  {
    var s := before + [c] + rest;
    if before != "" {
      IndexAfter(before[1..], c, rest);
      assert s[1..] == before[1..] + [c] + rest;
    }
  }

  lemma FirstLine(line: string, rest: string)
    requires NEWLINE !in line
    ensures Lines(line + [NEWLINE] + rest) == [line] + Lines(rest)
  {
    var text := line + [NEWLINE] + rest;
    IndexAfter(line, NEWLINE, rest);
    assert text[..|line|] == line && text[|line| + 1..] == rest;
  }

  /** Complete lines followed by more text are the lines of the one and then those of the other. */
  lemma {:induction false} LinesAppend(a: string, b: string)
    requires a == "" || a[|a| - 1] == NEWLINE
    ensures Lines(a + b) == Lines(a) + Lines(b)
    decreases |a|
  {
    hide Lines, IndexOf;
    if a == "" {
      assert a + b == b;
      NoLines();
      assert [] + Lines(b) == Lines(b);
    } else {
      assert a[|a| - 1] in a;
      var end := IndexOf(a, NEWLINE);
      AppendOnce(a, b, end);
      LinesAppend(a[end + 1..], b);
      FirstLine(a[..end], a[end + 1..]);
      FirstLine(a[..end], a[end + 1..] + b);
      assert [a[..end]] + (Lines(a[end + 1..]) + Lines(b)) == [a[..end]] + Lines(a[end + 1..]) + Lines(b);
    }
  }

  lemma NoLines()
    ensures Lines("") == []
  {
  }

  lemma AppendOnce(a: string, b: string, end: nat)
    requires end < |a| && a[end] == NEWLINE && a[|a| - 1] == NEWLINE
    ensures a == a[..end] + [NEWLINE] + a[end + 1..] && a + b == a[..end] + [NEWLINE] + (a[end + 1..] + b)
    ensures a[end + 1..] == "" || a[end + 1..][|a[end + 1..]| - 1] == NEWLINE
  {
  }

  lemma OneLine(key: string, value: string)
    requires NEWLINE !in key && NEWLINE !in value
    ensures Lines(LineOf(key, value)) == [key + "=" + value]
  {
    var line := key + "=" + value;
    assert LineOf(key, value) == line + [NEWLINE] + [];
    FirstLine(line, []);
  }

  lemma EnteredLine(table: map<string, string>, key: string, value: string)
    requires PlainKey(key)
    ensures Entered(table, key + "=" + value) == table[key := value]
  {
    var line := key + "=" + value;
    assert line == key + ['='] + value;
    IndexAfter(key, '=', value);
    assert line[..|key|] == key && line[|key|] == '=' && line[|key| + 1..] == value;
    assert key != "" ==> line[0] == key[0];
  }

  /** Reading a key back gives its last written value, or nothing when it was never written, whatever the values contain
      besides newlines. */
  lemma {:induction false} ReadsBack(writes: seq<(string, string)>)
    requires Writable(writes)
    ensures Text(writes) == "" || Text(writes)[|Text(writes)| - 1] == NEWLINE
    ensures forall key ::
      (if key in Table(Lines(Text(writes))) then Table(Lines(Text(writes)))[key] else "") == LastWritten(writes, key)
    decreases |writes|
  {
    if writes != [] {
      var init, last := writes[..|writes| - 1], writes[|writes| - 1];
      ReadsBack(init);
      OneLine(last.0, last.1);
      LinesAppend(Text(init), LineOf(last.0, last.1));
      var lines, line := Lines(Text(init)), last.0 + "=" + last.1;
      assert Lines(Text(writes)) == lines + [line];
      assert (lines + [line])[..|lines|] == lines;
      EnteredLine(Table(lines), last.0, last.1);
    }
  }

  /** Any sequence of writes, refused ones included, then a reader on the result. */
  method WriteThenRead(writes: seq<(string, string)>, key: string) returns (value: string)
    requires forall i | 0 <= i < |writes| :: PlainKey(writes[i].0)
    ensures value == LastWritten(Accepted(writes), key)
  {
    hide Text, Accepted, Lines, Table, LastWritten, LineOf, PlainKey;
    NothingAccepted();
    var w := new InitBootFile.Writer();
    var i := 0;
    while i < |writes|
      invariant 0 <= i <= |writes| && w.text == Text(Accepted(writes[..i])) && Writable(Accepted(writes[..i]))
    {
      var r := w.Write(writes[i].0, writes[i].1);
      AcceptedNext(writes, i);
      i := i + 1;
    }
    assert writes[..|writes|] == writes;
    var reader := new InitBootFile.Reader(w.text);
    ReadsBack(Accepted(writes));
    var r := reader.Read(key);
    value := r.value;
  }

  /** The writes that are not refused. */
  function Accepted(writes: seq<(string, string)>): seq<(string, string)> {
    if writes == [] then []
    else Accepted(writes[..|writes| - 1]) + if NEWLINE in writes[|writes| - 1].1 then [] else [writes[|writes| - 1]]
  }

  lemma NothingAccepted()
    ensures Accepted([]) == [] && Text([]) == ""
  {
  }

  lemma AcceptedNext(writes: seq<(string, string)>, i: nat)
    requires i < |writes|
    ensures var before := Accepted(writes[..i]);
            Accepted(writes[..i + 1]) == (if NEWLINE in writes[i].1 then before else before + [writes[i]]) &&
            (NEWLINE !in writes[i].1 ==> Text(before + [writes[i]]) == Text(before) + LineOf(writes[i].0, writes[i].1))
  {
    var before := Accepted(writes[..i]);
    assert writes[..i + 1][..i] == writes[..i];
    assert (before + [writes[i]])[..|before|] == before;
    assert before + [] == before;
  }

  lemma {:induction false} LinesAreLines(text: string)
    ensures forall line <- Lines(text) :: NEWLINE !in line
    decreases |text|
  {
    hide IndexOf;
    if text != [] {
      var end := IndexOf(text, NEWLINE);
      if end < |text| {
        LinesAreLines(text[end + 1..]);
        assert Lines(text) == [text[..end]] + Lines(text[end + 1..]);
      } else {
        assert Lines(text) == [text[..end]];
      }
    }
  }

  lemma {:induction false} KeysArePlain(lines: seq<string>)
    requires forall i | 0 <= i < |lines| :: NEWLINE !in lines[i]
    ensures forall key <- Table(lines) :: PlainKey(key)
    decreases |lines|
  {
    if lines != [] {
      KeysArePlain(lines[..|lines| - 1]);
      var line := lines[|lines| - 1];
      var key := line[..IndexOf(line, '=')];
      assert key != "" ==> key[0] == line[0];
      assert forall c <- key :: c in line;
    }
  }

  /** The condition on keys is exact: a written key is found again precisely when it is plain. */
  lemma FoundExactlyWhenPlain(key: string, value: string)
    requires NEWLINE !in value
    ensures key in Table(Lines(LineOf(key, value))) <==> PlainKey(key)
  {
    var lines := Lines(LineOf(key, value));
    LinesAreLines(LineOf(key, value));
    KeysArePlain(lines);
    if PlainKey(key) {
      OneLine(key, value);
      EnteredLine(map[], key, value);
      assert [key + "=" + value][..0] == [];
      assert Table(lines) == Entered(Table([]), key + "=" + value);
    }
  }
}
