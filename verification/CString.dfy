// C strings as the modem code sees them: a NUL-free sequence of characters whose end is found
// by reading a NUL, and the prefix test on which every line classification rests.
module CString {

  const NUL: char := '\0'

  datatype Option<+T> = None | Some(value: T)

  predicate NulFree(s: seq<char>) {
    forall i :: 0 <= i < |s| ==> s[i] != NUL
  }

  // The byte read at s + i, the terminator included.
  function ByteAt(s: seq<char>, i: nat): char
    requires i <= |s|
  {
    if i < |s| then s[i] else NUL
  }

  // The string s is stored in mem from index p, terminator included.
  predicate Holds(mem: seq<char>, p: nat, s: seq<char>) {
    && p + |s| < |mem|
    && mem[p..p + |s|] == s
    && mem[p + |s|] == NUL
    && NulFree(s)
  }

  // strStartsWith: both pointers advance until a mismatch or a terminator.
  method StrStartsWith(line: seq<char>, prefix: seq<char>) returns (r: bool)
    requires NulFree(line) && NulFree(prefix)
    ensures r <==> prefix <= line
  {
    var i := 0;
    while ByteAt(line, i) != NUL && ByteAt(prefix, i) != NUL
      invariant i <= |line| && i <= |prefix|
      invariant line[..i] == prefix[..i]
      decreases |line| - i
    {
      if ByteAt(line, i) != ByteAt(prefix, i) {
        assert line[i] != prefix[i];
        return false;
      }
      i := i + 1;
    }
    r := ByteAt(prefix, i) == NUL;
  }
}
