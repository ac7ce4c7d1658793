/** What both halves of the wire format share. */
module Wire {
  import opened CString

  const CRLF: string := "\r\n"

  /** One header line: the name with its colon, a space, the value. */
  function Header(name: string, value: string): string {
    name + " " + value + CRLF
  }

  /** A C string without the delimiter `c`. */
  predicate Free(s: string, c: char) { c !in s && NUL !in s }

  /** What stands before the character `strchr` finds is free of it. */
  lemma StrChrCuts(s: string, c: char, from: nat)
    requires StrChr(s, c, from).Some?
    ensures Free(s[from..StrChr(s, c, from).value], c)
  {
    StrChrHits(s, c, from);
  }

  /** The bytes of several reads, in order. */
  function Joined(chunks: seq<string>): string {
    if chunks == [] then "" else chunks[0] + Joined(chunks[1..])
  }

  lemma JoinedOne(chunks: seq<string>)
    requires |chunks| == 1
    ensures chunks == [Joined(chunks)]
  {
    assert chunks[1..] == [];
    assert Joined(chunks) == chunks[0];
  }

  lemma SliceExtends(s: string, t: string, i: nat, j: nat)
    requires s <= t && i <= j <= |s|
    ensures t[i..j] == s[i..j]
  {
  }

  /** The newline of the CRLF that follows a word. */
  lemma LineEnd(t: string, p: nat, w: string)
    requires At(t, p, w) && At(t, p + |w|, CRLF) && Free(w, '\n')
    ensures StrChr(t, '\n', p) == Some(p + |w| + 1)
  {
    assert CRLF == "\r" + "\n";
    AtSplit(t, p + |w|, "\r", "\n");
    AtSplit(t, p, w, "\r");
    StrChrBehind(t, '\n', p, w + "\r", "\n");
  }

  /** `strncpy`, `memmove` into a buffer. */
  method CopyInto(buffer: array<char>, at: nat, text: string)
    requires at + |text| <= buffer.Length
    modifies buffer
    ensures buffer[..at] == old(buffer[..at])
    ensures buffer[at..at + |text|] == text
    ensures forall i | at + |text| <= i < buffer.Length :: buffer[i] == old(buffer[i])
  {
    forall i | 0 <= i < |text| {
      buffer[at + i] := text[i];
    }
  }
}
