/** C strings made from text that may hold NULs, and texts put together. */
module CStrings {
  /** What a C string function sees: the text up to its first NUL. */
  function CString(s: string): (c: string)
    ensures forall k :: 0 <= k < |c| ==> c[k] != '\0'
    ensures c <= s && (|c| < |s| ==> s[|c|] == '\0')
    ensures (forall k :: 0 <= k < |s| ==> s[k] != '\0') ==> c == s
  {
    if s == "" || s[0] == '\0' then "" else [s[0]] + CString(s[1..])
  }

  /** The pieces with one character between any two. */
  function Join(pieces: seq<string>, c: char): string {
    if pieces == [] then ""
    else if |pieces| == 1 then pieces[0]
    else pieces[0] + [c] + Join(pieces[1..], c)
  }

  lemma {:induction false} JoinAppend(pieces: seq<string>, last: string, c: char)
    requires pieces != []
    ensures Join(pieces + [last], c) == Join(pieces, c) + [c] + last
    decreases |pieces|
  {
    if |pieces| > 1 {
      assert (pieces + [last])[1..] == pieces[1..] + [last];
      JoinAppend(pieces[1..], last, c);
      assert pieces[0] + [c] + (Join(pieces[1..], c) + [c] + last) == pieces[0] + [c] + Join(pieces[1..], c) + [c] + last;
    }
  }
}
