/** Byte strings as the C++ code handles them: received in pieces, and cut at a NUL. */
module Text {

  /** The bytes of several pieces. */
  function Concat(chunks: seq<string>): string {
    if chunks == [] then "" else chunks[0] + Concat(chunks[1..])
  }

  lemma ConcatCons(x: string, more: seq<string>)
    ensures Concat([x] + more) == x + Concat(more)
  {
    assert ([x] + more)[1..] == more;
  }

  /** What a NUL-terminated copy keeps of a string. */
  function CString(s: string): string {
    if s == "" || s[0] == '\0' then "" else [s[0]] + CString(s[1..])
  }

  ghost predicate NulFree(s: string) {
    forall i | 0 <= i < |s| :: s[i] != '\0'
  }

  lemma {:induction false} NulFreeIsKept(s: string)
    requires NulFree(s)
    ensures CString(s) == s
    decreases |s|
  {
    if s != "" {
      NulFreeIsKept(s[1..]);
      assert s == [s[0]] + s[1..];
    }
  }

  lemma {:induction false} CStringIsNulFree(s: string)
    ensures NulFree(CString(s))
    decreases |s|
  {
    if s != "" && s[0] != '\0' { CStringIsNulFree(s[1..]); }
  }

  lemma DropTwice(s: string, i: nat, j: nat)
    requires i + j <= |s|
    ensures s[i..][j..] == s[i + j..]
  {
  }
}
