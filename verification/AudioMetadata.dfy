/** The text form of a default device in the backend's metadata: writing it as JSON and reading a target back out of
    whatever text the backend holds. Characters are bytes. */
module AudioMetadata {
  import opened Common
  import opened Numerals
  import opened AudioModel
  import opened AudioReferences
  import opened AudioRegistry

  predicate IsSpace(c: char) {
    c == ' ' || 9 as char <= c <= 13 as char
  }

  /** The white space of the C locale, one by one. */
  lemma SpacesExactly(c: char)
    ensures IsSpace(c) <==> c in " \t\n\r" + [11 as char, 12 as char]
  {
  }

  // ---------- escaping ----------

  predicate NeedsEscape(c: char) {
    c == '"' || c == '\\'
  }

  function EscapedChar(c: char): string {
    if NeedsEscape(c) then ['\\', c] else [c]
  }

  function Escaped(s: string): string {
    if s == [] then [] else EscapedChar(s[0]) + Escaped(s[1..])
  }

  /** One more character of the input and what it becomes. */
  lemma EscapedNext(whole: string, out: string, c: char, rest: string)
    requires whole == out + Escaped([c] + rest)
    ensures whole == (out + EscapedChar(c)) + Escaped(rest)
  {
    hide Escaped, EscapedChar;
    EscapedCons(c, rest);
    Associative(out, EscapedChar(c), Escaped(rest));
  }

  lemma EscapedCons(c: char, rest: string)
    ensures Escaped([c] + rest) == EscapedChar(c) + Escaped(rest)
  {
    hide EscapedChar;
    assert ([c] + rest)[1..] == rest;
  }

  method EscapeJsonString(s: string) returns (out: string)
    ensures out == Escaped(s)
  {
    hide Escaped, NeedsEscape;
    out := [];
    var i := 0;
    assert s[0..] == s;
    while i < |s|
      invariant 0 <= i <= |s| && Escaped(s) == out + Escaped(s[i..])
    {
      assert s[i..] == [s[i]] + s[i + 1..];
      EscapedNext(Escaped(s), out, s[i], s[i + 1..]);
      ghost var before := out;
      if NeedsEscape(s[i]) { out := out + ['\\']; }
      out := out + [s[i]];
      assert out == before + EscapedChar(s[i]);
      i := i + 1;
    }
    NothingEscaped();
    assert s[|s|..] == [] && out + [] == out;
  }

  lemma NothingEscaped()
    ensures Escaped([]) == []
  {
  }

  // ---------- searching (`find`, `find_first_not_of`) ----------

  /** The text is at this position. */
  predicate IsAt(s: string, text: string, k: nat) {
    k + |text| <= |s| && s[k..k + |text|] == text
  }

  /** The first position from `from` on where the text is. */
  function FindText(s: string, text: string, from: nat): (r: Option<nat>)
    ensures r.Some? ==> from <= r.value && IsAt(s, text, r.value) && forall k | from <= k < r.value :: !IsAt(s, text, k)
    ensures r.None? ==> forall k | from <= k :: !IsAt(s, text, k)
    decreases |s| - from
  {
    if from + |text| > |s| then None
    else if s[from..from + |text|] == text then Some(from)
    else FindText(s, text, from + 1)
  }

  function FirstNonBlank(s: string, from: nat): (r: Option<nat>)
    ensures r.Some? ==> from <= r.value < |s| && s[r.value] !in " \t\r\n"
    ensures forall k | from <= k < (if r.Some? then r.value else |s|) :: s[k] in " \t\r\n"
    decreases |s| - from
  {
    if from >= |s| then None
    else if s[from] in {' ', '\t', '\r', '\n'} then FirstNonBlank(s, from + 1)
    else Some(from)
  }

  /** Where the value of a field starts: after its quoted name, the next colon and blanks. */
  function FieldValueAt(json: string, field: string): (r: Option<nat>)
    ensures r.Some? ==> r.value < |json|
  {
    var key := FindText(json, "\"" + field + "\"", 0);
    if key == None then None
    else
      var colon := FindText(json, ":", key.value + |field| + 2);
      if colon == None then None else FirstNonBlank(json, colon.value + 1)
  }

  // ---------- quoted and numeric fields ----------

  /** The text from `i` to the closing quote or the end, each backslash dropped and its successor taken as it is. */
  function Unescaped(s: string, i: nat): string
    requires i <= |s|
    decreases |s| - i
  {
    if i == |s| || s[i] == '"' then []
    else if s[i] == '\\' then
      if i + 1 < |s| then [s[i + 1]] + Unescaped(s, i + 2) else []
    else [s[i]] + Unescaped(s, i + 1)
  }

  function QuotedField(json: string, field: string): Option<string> {
    var at := FieldValueAt(json, field);
    if at == None || json[at.value] != '"' then None else Some(Unescaped(json, at.value + 1))
  }

  method ExtractJsonField(json: string, field: string) returns (r: Option<string>)
    ensures r == QuotedField(json, field)
  {
    hide FieldValueAt, FindText, FirstNonBlank, Unescaped;
    var at := FieldValueAt(json, field);
    if at == None { return None; }
    if json[at.value] != '"' { return None; }
    var valPos := at.value + 1;
    var value := "";
    ghost var whole := Unescaped(json, valPos);
    assert whole == [] + whole;
    while valPos < |json|
      invariant at.value < valPos <= |json| && whole == value + Unescaped(json, valPos)
    {
      UnescapedNext(json, valPos, value);
      var c := json[valPos];
      if c == '\\' {
        if valPos + 1 < |json| {
          value := value + [json[valPos + 1]];
          valPos := valPos + 1;
        }
        valPos := valPos + 1;
        continue;
      }
      if c == '"' { break; }
      value := value + [c];
      valPos := valPos + 1;
    }
    UnescapedEnd(json, valPos, value);
    r := Some(value);
  }

  /** One step of the scanner, seen from what it has collected. */
  lemma UnescapedNext(s: string, i: nat, value: string)
    requires i < |s|
    ensures s[i] == '\\' && i + 1 < |s| ==> value + Unescaped(s, i) == (value + [s[i + 1]]) + Unescaped(s, i + 2)
    ensures s[i] == '\\' && i + 1 == |s| ==> value + Unescaped(s, i) == value + Unescaped(s, i + 1)
    ensures s[i] != '\\' && s[i] != '"' ==> value + Unescaped(s, i) == (value + [s[i]]) + Unescaped(s, i + 1)
  {
    if s[i] == '\\' && i + 1 < |s| {
      Associative(value, [s[i + 1]], Unescaped(s, i + 2));
    } else if s[i] != '\\' && s[i] != '"' {
      Associative(value, [s[i]], Unescaped(s, i + 1));
    }
  }

  lemma UnescapedEnd(s: string, i: nat, value: string)
    requires i == |s| || (i < |s| && s[i] == '"')
    ensures value + Unescaped(s, i) == value
  {
  }

  function DigitsEnd(s: string, i: nat): (j: nat)
    requires i <= |s|
    ensures i <= j <= |s| && (j < |s| ==> !IsDigit(s[j])) && forall k | i <= k < j :: IsDigit(s[k])
    decreases |s| - i
  {
    if i < |s| && IsDigit(s[i]) then DigitsEnd(s, i + 1) else i
  }

  function NumericField(json: string, field: string): Option<string> {
    var at := FieldValueAt(json, field);
    if at == None then None
    else
      var first := if json[at.value] == '-' then at.value + 1 else at.value;
      if first >= |json| || !IsDigit(json[first]) then None else Some(json[at.value..DigitsEnd(json, first)])
  }

  /** A number is a run of digits as long as there are any, with an optional minus before it. */
  lemma NumericFieldMeans(json: string, field: string)
    requires FieldValueAt(json, field).Some?
    ensures var at, r := FieldValueAt(json, field).value, NumericField(json, field);
            (r.Some? <==> IsDigit(json[at]) || (json[at] == '-' && at + 1 < |json| && IsDigit(json[at + 1]))) &&
            (r.Some? ==> var end := at + |r.value|;
               at < end <= |json| && r.value == json[at..end] && (end < |json| ==> !IsDigit(json[end])) &&
               forall k | at < k < end :: IsDigit(json[k]))
  {
    hide FieldValueAt;
  }

  method ExtractJsonNumericField(json: string, field: string) returns (r: Option<string>)
    ensures r == NumericField(json, field)
  {
    hide FieldValueAt, FindText, FirstNonBlank;
    var at := FieldValueAt(json, field);
    if at == None { return None; }
    var valPos := at.value;
    var negative := json[valPos] == '-';
    if negative { valPos := valPos + 1; }
    if valPos >= |json| || !IsDigit(json[valPos]) { return None; }
    var endPos := valPos;
    while endPos < |json| && IsDigit(json[endPos])
      invariant valPos <= endPos <= |json| && DigitsEnd(json, valPos) == DigitsEnd(json, endPos)
    {
      endPos := endPos + 1;
    }
    var start := if negative then valPos - 1 else valPos;
    r := Some(json[start..endPos]);
  }

  // ---------- trimming and parsing ----------

  function TrimmedLeft(s: string): (r: string)
    ensures |r| <= |s|
  {
    if s != [] && IsSpace(s[0]) then TrimmedLeft(s[1..]) else s
  }

  function TrimmedRight(s: string): (r: string)
    ensures r <= s
  {
    if s != [] && IsSpace(s[|s| - 1]) then TrimmedRight(s[..|s| - 1]) else s
  }

  lemma {:induction false} LeftTrimmed(s: string) returns (front: string)
    ensures var r := TrimmedLeft(s);
            s == front + r && (forall c <- front :: IsSpace(c)) && (r != [] ==> !IsSpace(r[0]))
    decreases |s|
  {
    hide IsSpace;
    front := [];
    if s != [] && IsSpace(s[0]) {
      var rest := LeftTrimmed(s[1..]);
      front := [s[0]] + rest;
      OneMoreInFront(s[0], rest, TrimmedLeft(s[1..]));
      assert s == [s[0]] + s[1..];
      hide TrimmedLeft;
    }
  }

  lemma OneMoreInFront(c: char, front: string, r: string)
    requires IsSpace(c) && forall x <- front :: IsSpace(x)
    ensures [c] + (front + r) == ([c] + front) + r && forall x <- [c] + front :: IsSpace(x)
  {
    hide IsSpace;
  }

  lemma {:induction false} RightTrimmed(s: string) returns (back: string)
    ensures var r := TrimmedRight(s);
            s == r + back && (forall c <- back :: IsSpace(c)) && (r != [] ==> !IsSpace(r[|r| - 1]))
    decreases |s|
  {
    back := [];
    if s != [] && IsSpace(s[|s| - 1]) {
      var rest := RightTrimmed(s[..|s| - 1]);
      back := rest + [s[|s| - 1]];
      Associative(TrimmedRight(s), rest, [s[|s| - 1]]);
    }
  }

  /** Trimming takes white space off both ends, all of it and nothing else. */
  lemma TrimmedMeans(s: string) returns (front: string, back: string)
    ensures var r := TrimmedRight(TrimmedLeft(s));
            s == front + (r + back) && (forall c <- front :: IsSpace(c)) && (forall c <- back :: IsSpace(c)) &&
            (r != [] ==> !IsSpace(r[0]) && !IsSpace(r[|r| - 1]))
  {
    hide TrimmedLeft, TrimmedRight, IsSpace;
    front := LeftTrimmed(s);
    back := RightTrimmed(TrimmedLeft(s));
  }

  method Trim(s: string) returns (r: string)
    ensures r == TrimmedRight(TrimmedLeft(s))
  {
    r := s;
    while r != [] && IsSpace(r[0])
      invariant TrimmedLeft(r) == TrimmedLeft(s)
      decreases |r|
    {
      r := r[1..];
    }
    while r != [] && IsSpace(r[|r| - 1])
      invariant TrimmedRight(r) == TrimmedRight(TrimmedLeft(s))
      decreases |r|
    {
      r := r[..|r| - 1];
    }
  }

  /** The target a metadata value names. */
  function Target(value: string): string {
    var raw := TrimmedRight(TrimmedLeft(value));
    if raw == [] then ""
    else if raw[0] == '{' && QuotedField(raw, "name").Some? then QuotedField(raw, "name").value
    else if raw[0] == '{' && QuotedField(raw, "id").Some? then QuotedField(raw, "id").value
    else if raw[0] == '{' && NumericField(raw, "id").Some? then NumericField(raw, "id").value
    else if |raw| >= 2 && raw[0] == '"' && raw[|raw| - 1] == '"' then raw[1..|raw| - 1]
    else raw
  }

  method ParseMetadataTarget(value: Option<string>) returns (target: string)
    ensures target == if value.Some? then Target(value.value) else ""
  {
    hide QuotedField, NumericField, TrimmedLeft, TrimmedRight;
    if value == None { return ""; }
    var raw := Trim(value.value);
    if raw == [] { return ""; }
    if raw[0] == '{' {
      var name := ExtractJsonField(raw, "name");
      if name.Some? { return name.value; }
      var id := ExtractJsonField(raw, "id");
      if id.Some? { return id.value; }
      id := ExtractJsonNumericField(raw, "id");
      if id.Some? { return id.value; }
    }
    if |raw| >= 2 && raw[0] == '"' && raw[|raw| - 1] == '"' { return raw[1..|raw| - 1]; }
    target := raw;
  }

  // ---------- the round trip ----------

  /** What is stored for a default device. */
  function DefaultJson(target: string, nodeId: nat): string {
    "{\"name\":\"" + Escaped(target) + "\",\"id\":" + ToString(nodeId) + "}"
  }

  /** Reading from a place is reading what follows it. */
  lemma {:induction false} UnescapedFrom(s: string, i: nat, k: nat)
    requires i + k <= |s|
    ensures Unescaped(s, i + k) == Unescaped(s[i..], k)
    decreases |s| - k
  {
    if i + k < |s| {
      assert s[i..][k] == s[i + k];
      if i + k + 1 < |s| { assert s[i..][k + 1] == s[i + k + 1]; }
      UnescapedFrom(s, i, k + 1);
      if i + k + 2 <= |s| { UnescapedFrom(s, i, k + 2); }
    }
  }

  /** Reading back from the middle of a text that continues with a closing quote. */
  lemma UnescapedEscaped(before: string, target: string, rest: string)
    ensures Unescaped(before + Escaped(target) + ['"'] + rest, |before|) == target
  {
    hide Unescaped, Escaped;
    var text := before + Escaped(target) + ['"'] + rest;
    assert text[|before|..] == Escaped(target) + ['"'] + rest;
    UnescapedFrom(text, |before|, 0);
    ReadsBackFirst(target, rest);
  }

  lemma {:induction false} ReadsBackFirst(target: string, rest: string)
    ensures Unescaped(Escaped(target) + ['"'] + rest, 0) == target
    decreases |target|
  {
    var text := Escaped(target) + ['"'] + rest;
    if target == [] {
      assert text[0] == '"';
    } else {
      var c, others := target[0], target[1..];
      assert target == [c] + others;
      EscapedCons(c, others);
      ReadsBackFirst(others, rest);
      CharBefore(c, Escaped(others) + ['"'] + rest);
      assert text == EscapedChar(c) + (Escaped(others) + ['"'] + rest);
    }
  }

  /** An escaped character is read back, and reading goes on behind it. */
  lemma CharBefore(c: char, text: string)
    ensures Unescaped(EscapedChar(c) + text, 0) == [c] + Unescaped(text, 0)
  {
    var s := EscapedChar(c) + text;
    var k := |EscapedChar(c)|;
    assert s[k..] == text && s[0] == EscapedChar(c)[0] && (k == 2 ==> s[1] == c);
    UnescapedFrom(s, k, 0);
  }

  lemma {:induction false} EscapedKeepsNulFree(s: string)
    ensures NUL in Escaped(s) <==> NUL in s
    decreases |s|
  {
    if s != [] {
      EscapedKeepsNulFree(s[1..]);
      assert s == [s[0]] + s[1..];
    }
  }

  lemma NameFirst(tail: string)
    ensures var json := "{\"name\":\"" + tail;
            FieldValueAt(json, "name") == Some(8) && json[8] == '"' && json[0] == '{'
  {
    hide FindText, FirstNonBlank;
    var json, head := "{\"name\":\"" + tail, "{\"name\":\"";
    assert json[..9] == head;
    Part(head, tail, 1, 7);
    Part(head, tail, 7, 8);
    assert json[0] == head[0] == '{' && json[8] == head[8] == '"';
    FoundLater(json, "\"name\"", 0);
    FoundHere(json, "\"name\"", 1);
    FoundHere(json, ":", 7);
    assert FirstNonBlank(json, 8) == Some(8) by { NotBlank(json, 8); }
    assert "\"" + "name" + "\"" == "\"name\"";
  }

  lemma Part(head: string, tail: string, i: nat, j: nat)
    requires i <= j <= |head|
    ensures (head + tail)[i..j] == head[i..j]
  {
  }

  lemma FoundHere(s: string, text: string, from: nat)
    requires from + |text| <= |s| && s[from..from + |text|] == text
    ensures FindText(s, text, from) == Some(from)
  {
  }

  lemma FoundLater(s: string, text: string, from: nat)
    requires from < |s| && text != "" && s[from] != text[0]
    ensures FindText(s, text, from) == FindText(s, text, from + 1)
  {
    if from + |text| <= |s| { assert s[from..from + |text|][0] == s[from]; }
  }

  lemma NotBlank(s: string, i: nat)
    requires i < |s| && s[i] !in {' ', '\t', '\r', '\n'}
    ensures FirstNonBlank(s, i) == Some(i)
  {
  }

  lemma Untrimmed(s: string)
    requires s != "" && !IsSpace(s[0]) && !IsSpace(s[|s| - 1])
    ensures TrimmedRight(TrimmedLeft(s)) == s
  {
    NotTrimmed(s);
    hide TrimmedLeft, TrimmedRight;
  }

  lemma NotTrimmed(s: string)
    requires s != ""
    ensures !IsSpace(s[0]) ==> TrimmedLeft(s) == s
    ensures !IsSpace(s[|s| - 1]) ==> TrimmedRight(s) == s
  {
    hide IsSpace;
  }

  lemma JsonReadsBack(target: string, nodeId: nat)
    ensures Target(DefaultJson(target, nodeId)) == target
  {
    hide Escaped, Unescaped, FieldValueAt, NumericField, TrimmedLeft, TrimmedRight, FindText, FirstNonBlank;
    var json, start := DefaultJson(target, nodeId), "{\"name\":\"";
    var rest := ",\"id\":" + ToString(nodeId) + "}";
    var tail := Escaped(target) + ['"'] + rest;
    NameFirst(tail);
    JsonPieces(start, Escaped(target), ToString(nodeId));
    UnescapedEscaped(start, target, rest);
    Untrimmed(json);
    assert QuotedField(json, "name") == Some(target);
  }

  lemma JsonPieces(start: string, escaped: string, digits: string)
    ensures var json := start + escaped + "\",\"id\":" + digits + "}";
            json == start + (escaped + ['"'] + (",\"id\":" + digits + "}")) &&
            json == start + escaped + ['"'] + (",\"id\":" + digits + "}") && json[|json| - 1] == '}'
  {
    assert "\",\"id\":" == ['"'] + ",\"id\":";
  }

  lemma JsonNulFree(target: string, nodeId: nat)
    requires NUL !in target
    ensures NUL !in DefaultJson(target, nodeId)
  {
    hide Escaped;
    EscapedKeepsNulFree(target);
  }

  lemma {:induction false} UnescapedChars(s: string, i: nat)
    requires i <= |s|
    ensures forall c <- Unescaped(s, i) :: c in s
    decreases |s| - i
  {
    if i < |s| && s[i] != '"' {
      if s[i] == '\\' {
        if i + 1 < |s| { UnescapedChars(s, i + 2); }
      } else {
        UnescapedChars(s, i + 1);
      }
    }
  }

  /** A target is made of characters of the text it is read from. */
  lemma TargetChars(value: string)
    ensures forall c <- Target(value) :: c in value
  {
    hide QuotedField, NumericField, TrimmedLeft, TrimmedRight;
    var raw := TrimmedRight(TrimmedLeft(value));
    var front, back := TrimmedMeans(value);
    assert value == front + (raw + back);
    FieldChars(raw, "name");
    FieldChars(raw, "id");
  }

  lemma FieldChars(json: string, field: string)
    ensures QuotedField(json, field).Some? ==> forall c <- QuotedField(json, field).value :: c in json
    ensures NumericField(json, field).Some? ==> forall c <- NumericField(json, field).value :: c in json
  {
    hide FieldValueAt, Unescaped, DigitsEnd;
    var at := FieldValueAt(json, field);
    if at.Some? { UnescapedChars(json, at.value + 1); }
  }

  /** The stored default reads back as the target exactly when the target is NUL-free: quotes and backslashes survive, a
      NUL cuts the stored text short. */
  lemma StoredTargetReadsBackExactly(target: string, nodeId: nat)
    ensures Target(UpToNul(DefaultJson(target, nodeId))) == target <==> NUL !in target
  {
    hide Target, DefaultJson;
    if NUL !in target {
      JsonNulFree(target, nodeId);
      JsonReadsBack(target, nodeId);
    } else {
      TargetChars(UpToNul(DefaultJson(target, nodeId)));
    }
  }

  /** The name under which a device is stored as default. */
  function StoredName(d: Device): string {
    OrElse(d.nodeName, OrElse(d.serial, ToString(d.nodeId)))
  }

  /** When the backend echoes a stored default, the lookup finds an existing device that ranks no worse. */
  lemma EchoResolves(devices: map<string, Device>, path: string, resolved: string)
    requires path in devices && NUL !in StoredName(devices[path]) && ROOT !in devices
    requires IsTargetResult(devices, Target(UpToNul(DefaultJson(StoredName(devices[path]), devices[path].nodeId))),
                            resolved)
    ensures resolved in devices && Rank(devices[resolved]) <= Rank(devices[path])
  {
    hide IsBestMatch, StandsFor, Rank, Matches, StoredName, Target, DefaultJson, UpToNul;
    var name := StoredName(devices[path]);
    StoredTargetReadsBackExactly(name, devices[path].nodeId);
    NamedByItself(devices[path]);
    var best :| IsBestMatch(devices, name, best) && StandsFor(devices, best, resolved);
    TargetFound(devices, name, resolved, best);
  }

  lemma NamedByItself(d: Device)
    ensures Matches(d, StoredName(d))
  {
  }

  /** A bare name without surrounding blanks, quotes or a brace is its own target. */
  lemma BareName(name: string)
    requires name != "" && !IsSpace(name[0]) && !IsSpace(name[|name| - 1]) && name[0] != '{' && name[0] != '"'
    ensures Target(name) == name
  {
  }
}
