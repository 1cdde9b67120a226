/** D-Bus object paths: validation, children, parents and leaves. */
module ObjectPath {

  datatype Result<+T> = Ok(value: T) | Invalid

  predicate IsElementChar(c: char) {
    'A' <= c <= 'Z' || 'a' <= c <= 'z' || '0' <= c <= '9' || c == '_'
  }

  /** The characters of section "Valid Object Paths" of the D-Bus Specification, one by one. */
  const ELEMENT_CHARS := "ABCDEFGHIJKLMNOPQRSTUVWXYZ" + "abcdefghijklmnopqrstuvwxyz" + "0123456789" + "_"

  lemma ElementCharsExactly(c: char)
    ensures IsElementChar(c) <==> c in ELEMENT_CHARS
  {
    InAlphabet("ABCDEFGHIJKLMNOPQRSTUVWXYZ", 'A', 26, c);
    InAlphabet("abcdefghijklmnopqrstuvwxyz", 'a', 26, c);
    InAlphabet("0123456789", '0', 10, c);
  }

  lemma InAlphabet(chars: string, first: char, n: nat, c: char)
    requires |chars| == n > 0 && first as int + n <= 0x80
    requires forall i | 0 <= i < n :: chars[i] as int == first as int + i
    ensures c in chars <==> first as int <= c as int < first as int + n
  {
    if first as int <= c as int < first as int + n { assert chars[c as int - first as int] == c; }
  }

  predicate IsElement(s: string) {
    s != "" && forall i | 0 <= i < |s| :: IsElementChar(s[i])
  }

  method IsValidElement(s: string) returns (r: bool)
    ensures r == IsElement(s)
  {
    if s == "" { return false; }
    var i := 0;
    while i < |s|
      invariant 0 <= i <= |s| && forall j | 0 <= j < i :: IsElementChar(s[j])
    {
      if !IsElementChar(s[i]) { return false; }
      i := i + 1;
    }
    r := true;
  }

  // ---------- the grammar ----------

  /** Elements, each after a slash. */
  function Joined(elements: seq<string>): string {
    if elements == [] then "" else "/" + elements[0] + Joined(elements[1..])
  }

  ghost predicate AllElements(elements: seq<string>) {
    forall i | 0 <= i < |elements| :: IsElement(elements[i])
  }

  /** Section "Valid Object Paths" of the D-Bus Specification: the root, or one or more elements, each after a slash. */
  ghost predicate IsPath(path: string) {
    path == "/" || exists elements: seq<string> :: elements != [] && AllElements(elements) && path == Joined(elements)
  }

  /** `find` of a slash, or the end. */
  function NextSlash(s: string, from: nat): (i: nat)
    requires from <= |s|
    ensures from <= i <= |s| && (i < |s| ==> s[i] == '/') && forall j | from <= j < i :: s[j] != '/'
    decreases |s| - from
  {
    if from == |s| || s[from] == '/' then from else NextSlash(s, from + 1)
  }

  lemma {:induction false} NextSlashIs(s: string, from: nat, i: nat)
    requires from <= i <= |s| && (i < |s| ==> s[i] == '/') && forall j | from <= j < i :: s[j] != '/'
    ensures NextSlash(s, from) == i
    decreases i - from
  {
    if from < i { NextSlashIs(s, from + 1, i); }
  }

  /** The text is elements, each after a slash. */
  predicate Groups(s: string)
    decreases |s|
  {
    s == "" || (s[0] == '/' && IsElement(s[1..NextSlash(s, 1)]) && Groups(s[NextSlash(s, 1)..]))
  }

  /** Validation accepts exactly the object paths of the specification. */
  method IsValid(path: string) returns (r: bool)
    ensures r <==> IsPath(path)
  {
    hide IsElement, IsPath, Groups, NextSlash;
    GroupsArePaths(path);
    GroupsStart(path);
    GroupsStart("");
    if path == "" || path[0] != '/' { return false; }
    if |path| > 1 && path[|path| - 1] == '/' {
      NoTrailingSlash(path);
      return false;
    }
    if path == "/" { return true; }
    var start := 1;
    assert path[0..] == path;
    while start < |path|
      invariant 1 <= start <= |path| + 1 && start != |path|
      invariant start <= |path| ==> path[start - 1] == '/'
      invariant Groups(path) <==> Groups(path[start - 1..])
    {
      var end := NextSlash(path, start);
      Suffix(path, start);
      var ok := IsValidElement(path[start..end]);
      if !ok { return false; }
      start := end + 1;
    }
    assert path[start - 1..] == "";
    r := true;
  }

  lemma GroupsStart(s: string)
    ensures s == "" ==> Groups(s)
    ensures s != "" && s[0] != '/' ==> !Groups(s)
  {
  }

  /** The group that starts just before `start`, seen from the suffix. */
  lemma Suffix(path: string, start: nat)
    requires 1 <= start < |path| && path[start - 1] == '/'
    ensures var end := NextSlash(path, start);
            Groups(path[start - 1..]) <==> IsElement(path[start..end]) && Groups(path[end..])
  {
    hide IsElement;
    var end, s := NextSlash(path, start), path[start - 1..];
    NextSlashIs(s, 1, end - start + 1);
    assert s[1..end - start + 1] == path[start..end] && s[end - start + 1..] == path[end..];
  }

  lemma {:induction false} NoTrailingSlash(s: string)
    requires s != "" && s[|s| - 1] == '/'
    ensures !Groups(s)
    decreases |s|
  {
    if s[0] == '/' && |s| > 1 {
      var end := NextSlash(s, 1);
      if end < |s| { NoTrailingSlash(s[end..]); }
    }
  }

  lemma GroupsArePaths(path: string)
    ensures IsPath(path) <==> path == "/" || (path != "" && Groups(path))
  {
    if path != "" && Groups(path) {
      var elements := Elements(path);
    }
    if elements: seq<string> :| elements != [] && AllElements(elements) && path == Joined(elements) {
      JoinedGroups(elements);
    }
  }

  /** The elements of a text made of them. */
  lemma {:induction false} Elements(s: string) returns (elements: seq<string>)
    requires Groups(s)
    ensures AllElements(elements) && s == Joined(elements) && (s != "" ==> elements != [])
    decreases |s|
  {
    if s == "" {
      elements := [];
    } else {
      var end := NextSlash(s, 1);
      var rest := Elements(s[end..]);
      elements := [s[1..end]] + rest;
      assert s == "/" + s[1..end] + s[end..];
    }
  }

  lemma {:induction false} JoinedGroups(elements: seq<string>)
    requires AllElements(elements)
    ensures Groups(Joined(elements)) && (elements != [] ==> Joined(elements) != "" && Joined(elements)[0] == '/')
    decreases |elements|
  {
    if elements != [] {
      var s, element, rest := Joined(elements), elements[0], Joined(elements[1..]);
      JoinedGroups(elements[1..]);
      assert IsElement(element);
      var end := 1 + |element|;
      assert s[1..end] == element && s[end..] == rest;
      NextSlashIs(s, 1, end);
    }
  }

  // ---------- children and parents ----------

  function LastSlash(path: string): (pos: nat)
    requires '/' in path
    ensures pos < |path| && path[pos] == '/' && '/' !in path[pos + 1..]
  {
    if path[|path| - 1] == '/' then |path| - 1
    else
      var pos := LastSlash(path[..|path| - 1]);
      assert path[pos + 1..] == path[..|path| - 1][pos + 1..] + [path[|path| - 1]];
      pos
  }

  function Leaf(path: string): string
    requires '/' in path
  {
    if path == "/" then "" else path[LastSlash(path) + 1..]
  }

  function Child(path: string, element: string): Result<string> {
    if !IsElement(element) then Invalid
    else if path == "/" then Ok("/" + element)
    else Ok(path + "/" + element)
  }

  function Parent(path: string): string
    requires '/' in path
  {
    if path == "/" then path
    else if LastSlash(path) == 0 then "/"
    else path[..LastSlash(path)]
  }

  lemma {:induction false} LastSlashIs(s: string, pos: nat)
    requires pos < |s| && s[pos] == '/' && forall j | pos < j < |s| :: s[j] != '/'
    ensures LastSlash(s) == pos
    decreases |s|
  {
    if pos < |s| - 1 { LastSlashIs(s[..|s| - 1], pos); }
  }

  lemma ChildParts(path: string, element: string)
    requires IsElement(element)
    ensures var child := path + "/" + element;
            '/' in child && LastSlash(child) == |path| && child[..|path|] == path && child[|path| + 1..] == element
  {
    var child := path + "/" + element;
    assert child[|path|] == '/';
    LastSlashIs(child, |path|);
  }

  lemma {:induction false} JoinedAppend(elements: seq<string>, element: string)
    ensures Joined(elements + [element]) == Joined(elements) + "/" + element
    decreases |elements|
  {
    hide Joined;
    if elements == [] {
      JoinedCons(element, []);
      assert Joined([]) == "" && elements + [element] == [element] + [] by { NothingJoined(); }
    } else {
      var first, rest := elements[0], elements[1..];
      JoinedAppend(rest, element);
      JoinedCons(first, rest);
      JoinedCons(first, rest + [element]);
      assert elements == [first] + rest && elements + [element] == [first] + (rest + [element]);
      Regrouped("/" + first, Joined(rest), "/", element);
    }
  }

  lemma JoinedCons(element: string, elements: seq<string>)
    ensures Joined([element] + elements) == "/" + element + Joined(elements)
  {
    assert ([element] + elements)[1..] == elements;
  }

  lemma NothingJoined()
    ensures Joined([]) == ""
  {
  }

  lemma Regrouped(a: string, b: string, c: string, d: string)
    ensures a + (b + c + d) == (a + b) + c + d
  {
  }

  /** A child exists exactly for a valid element, is a path, and its parent and leaf give back what it was made of. */
  lemma ChildUndone(path: string, element: string)
    requires IsPath(path)
    ensures Child(path, element).Ok? <==> IsElement(element)
    ensures IsElement(element) ==>
      var child := Child(path, element).value;
      IsPath(child) && '/' in child && Parent(child) == path && Leaf(child) == element
  {
    hide IsElement, Joined;
    if IsElement(element) {
      if path == "/" {
        ChildParts("", element);
        JoinedAppend([], element);
        NoElements();
        assert "" + "/" + element == "/" + element;
        assert AllElements([element]) && [] + [element] == [element];
      } else {
        var elements :| elements != [] && AllElements(elements) && path == Joined(elements);
        ChildParts(path, element);
        JoinedAppend(elements, element);
        assert AllElements(elements + [element]);
        NotRoot(elements);
      }
    }
  }

  lemma NoElements()
    ensures Joined([]) == ""
  {
  }

  lemma NotRoot(elements: seq<string>)
    requires elements != [] && AllElements(elements)
    ensures |Joined(elements)| > 1 && Joined(elements)[0] == '/'
  {
    assert IsElement(elements[0]);
  }

  /** Away from the root a path is the child of its parent by its leaf, and the parent is a path. */
  lemma ParentThenChild(path: string)
    requires IsPath(path) && path != "/"
    ensures '/' in path && IsPath(Parent(path)) && IsElement(Leaf(path)) && Child(Parent(path), Leaf(path)) == Ok(path)
  {
    hide IsElement, Joined;
    var elements :| elements != [] && AllElements(elements) && path == Joined(elements);
    var init, last := elements[..|elements| - 1], elements[|elements| - 1];
    assert elements == init + [last];
    JoinedAppend(init, last);
    ChildParts(Joined(init), last);
    if init == [] {
      NoElements();
      assert "" + "/" + last == "/" + last;
    } else {
      NotRoot(init);
      assert AllElements(init);
    }
  }
}
