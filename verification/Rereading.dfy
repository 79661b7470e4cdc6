/** The printed words, read back by the algorithm on the node list. */
module Rereading {
  import opened Bytes
  import opened Splitting
  import opened Printing
  import opened WordSplit

  /** wordsplit on a C string that holds printed words. */
  method Reread(command: array<byte>, ghost words: seq<seq<byte>>) returns (e: Errno, wordv: seq<seq<byte>>)
    requires CString(command[..]) == Print(words) && NUL in command[..]
    requires forall k :: 0 <= k < |words| ==> Free(words[k], NUL)
    ensures e == Eof && wordv == words
  {
    var len := Strlen(command);
    WellFormedText(DEFFLAGS, command[..], len, 0);
    StringEnds(DEFFLAGS, command[..], len);
    var s := new Splitter(DEFFLAGS, command, len);
    e := s.WordsplitLen();
    wordv := s.wordv;
    PrintParseIn(command[..], words);
  }

  method Strlen(s: array<byte>) returns (n: nat)
    requires NUL in s[..]
    ensures n < s.Length && s[n] == NUL && s[..n] == CString(s[..])
  {
    n := 0;
    while s[n] != NUL
      invariant n < s.Length && forall i :: 0 <= i < n ==> s[i] != NUL
      decreases s.Length - n
    {
      n := n + 1;
    }
    IndexOfIs(s[..], NUL, n);
  }
}
