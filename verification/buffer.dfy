/** Go's bytes.Buffer: the bytes written and not yet read. */
module Buffers {
  import opened Text

  class Buffer {
    var unread: string

    constructor ()
      ensures unread == []
    {
      unread := [];
    }

    method Reset()
      modifies this
      ensures unread == []
    {
      unread := [];
    }

    method Write(s: string)
      modifies this
      ensures unread == old(unread) + s
    {
      unread := unread + s;
    }

    /** What is taken and what is left make up what there was; less than n bytes come only at the end. */
    method Next(n: nat) returns (s: string)
      modifies this
      ensures s + unread == old(unread) && |s| <= n && (|s| == n || unread == "")
      ensures s == Front(old(unread), n) && unread == After(old(unread), n)
    {
      s := Front(unread, n);
      unread := After(unread, n);
    }

    /** What is taken and what is left make up what there was; the delimiter is the last byte taken and no other, or
        there is none and all is taken. `found` is false where Go returns io.EOF. */
    method ReadBytes(delim: char) returns (s: string, found: bool)
      modifies this
      ensures s + unread == old(unread)
      ensures if found then s != "" && s[|s| - 1] == delim && delim !in s[..|s| - 1] else unread == "" && delim !in s
      ensures s == Line(old(unread), delim) && unread == After(old(unread), |s|) && found == (delim in old(unread))
    {
      LineIsPrefix(unread, delim);
      s := Line(unread, delim);
      found := delim in unread;
      unread := After(unread, |s|);
    }
  }
}
