/** Copying text into a buffer. */
module Texts {
  /** Copies a piece of a text to a place in the buffer; what stands before that place is kept. */
  method PutText(s: string, from: nat, to: nat, buf: array<char>, n: nat) returns (fbp: nat)
    requires from <= to <= |s| && n + (to - from) <= buf.Length
    modifies buf
    ensures fbp == n + (to - from)
    ensures buf[..fbp] == old(buf[..n]) + s[from..to]
  {
    fbp := n;
    for mp := from to to
      invariant fbp == n + (mp - from) && buf[..fbp] == old(buf[..n]) + s[from..mp]
    {
      buf[fbp] := s[mp];
      fbp := fbp + 1;
    }
  }
}
