/** What several components share: optional values, results with a message, the first place of an element, and C
    strings. */
module Common {

  datatype Option<+T> = None | Some(value: T)

  datatype Result<+T> = Ok(value: T) | Error(message: string)

  /** `find` of one element: its first place, or the length. */
  function IndexOf<T(==)>(s: seq<T>, x: T): (i: nat)
    ensures i <= |s| && (i < |s| ==> s[i] == x) && x !in s[..i]
    ensures x in s <==> i < |s|
  {
    if s == [] then 0 else if s[0] == x then 0 else
      var i := 1 + IndexOf(s[1..], x);
      assert s[..i] == [s[0]] + s[1..][..i - 1];
      i
  }

  lemma Associative<T>(a: seq<T>, b: seq<T>, c: seq<T>)
    ensures a + (b + c) == (a + b) + c
  {
  }

  const NUL := 0 as char

  /** The bytes a C string carries. */
  function UpToNul(s: string): (r: string)
    ensures r <= s && NUL !in r && (NUL !in s ==> r == s)
  {
    if s == [] || s[0] == NUL then [] else [s[0]] + UpToNul(s[1..])
  }
}
