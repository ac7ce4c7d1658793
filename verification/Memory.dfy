/** The C heap, as far as ownership needs it: strings live in blocks that are
    either allocated with `malloc` or static constants, and only a live `malloc`
    block may be freed. */
module Memory {
  import opened CString

  class Block {
    const text: string
    const isStatic: bool
    var freed: bool

    /** `malloc`, `calloc` followed by the copy that fills the block. */
    constructor Alloc(text: string)
      ensures this.text == text && !isStatic && !freed
    {
      this.text, isStatic, freed := text, false, false;
    }

    /** A string constant of the program, such as an entry of the status code map. */
    constructor Static(text: string)
      ensures this.text == text && isStatic && !freed
    {
      this.text, isStatic, freed := text, true, false;
    }

    /** `free`: a second call, or a call on a constant, has no proof. */
    method Free()
      requires Owned(this)
      modifies this
      ensures freed
    {
      freed := true;
    }

    /** Reading through the pointer: a freed block has no text. */
    function Read(): string
      requires !freed
      reads this
    {
      text
    }
  }

  /** The text behind a pointer; a null pointer prints as nothing. */
  function TextOf(b: Block?): string {
    if b == null then "" else b.text
  }

  ghost predicate Owned(b: Block?)
    reads b
  {
    b != null && !b.isStatic && !b.freed
  }
}
