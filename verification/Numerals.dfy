/** Numbers in configuration texts: the parsers of lib/misc/string_util.c as parameters, and the split of "x.y". */
module Numerals {
  import opened Words
  import opened Wrappers

  datatype ValueType = AnyType | Unsigned | Signed | Float

  /** The number parsers of lib/misc/string_util.c; `image` is the 32-bit pattern that a text stands for. */
  datatype Numbers = Numbers(signed: string -> Option<int>, unsigned: string -> Option<nat>,
                             image: (ValueType, string) -> Option<Word>)

  function Dot(s: string): (d: nat)
    ensures d <= |s| && '.' !in s[..d] && (d < |s| ==> s[d] == '.')
  {
    if s == "" || s[0] == '.' then 0 else 1 + Dot(s[1..])
  }

  lemma {:induction false} DotAt(s: string, d: nat)
    requires d < |s| && s[d] == '.' && '.' !in s[..d]
    ensures Dot(s) == d
    decreases d
  {}
}
