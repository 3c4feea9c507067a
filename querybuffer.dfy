/** The query buffer `Input`: the runes typed so far, in typed order. */
module QueryBuffer {

  /** The rune `Pop` reports when there is nothing to remove (Go's zero rune). */
  const NoRune: char := '\0'

  class Input {
    var text: string

    constructor ()
      ensures text == []
    {
      text := [];
    }

    /** Append: the rune goes at the end of the query. */
    method Append(c: char)
      modifies this
      ensures text == old(text) + [c]
    {
      text := text + [c];
    }

    /** Pop: removes and returns the last rune; on an empty query it returns NoRune and
        leaves the query as it is. Either way the old query is the new one followed by
        what was removed. */
    method Pop() returns (c: char)
      modifies this
      ensures old(text) == [] ==> c == NoRune && text == []
      ensures old(text) != [] ==> c == old(text)[|old(text)| - 1]
      ensures old(text) != [] ==> old(text) == text + [c]
    {
      if |text| == 0 {
        return NoRune;
      }
      c := text[|text| - 1];
      text := text[..|text| - 1];
    }
  }

  /** Appending a rune and popping straight away gives that rune back and restores the query. */
  method AppendThenPop(input: Input, c: char) returns (popped: char)
    modifies input
    ensures popped == c && input.text == old(input.text)
  {
    input.Append(c);
    popped := input.Pop();
    ghost var both := input.text + [popped];
    assert both == old(input.text) + [c];
    assert input.text == both[..|both| - 1] && popped == both[|both| - 1];
  }
}
